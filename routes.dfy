/**
  The two request handlers in front of the store that carry logic: the
  booking POST with its same-instant conflict check, and the payment
  webhook that confirms a paid booking.
 */
module Routes {
  import opened Records
  import opened BookingTable
  import opened Storage

  /**
    The JSON body of a booking request as the handler and the insert read
    it. A bookingDate of None is one that does not read as a date; the
    status fields are whatever the client sent, and so is the verification
    code, which the body spreads into the row like any other column.
   */
  datatype BookingRequest = BookingRequest(
    customerName: Option<string>,
    customerPhone: Option<string>,
    professionalId: int,
    serviceId: int,
    bookingDate: Option<int>,
    totalAmount: Option<string>,
    status: Status,
    paymentStatus: PaymentStatus,
    phoneVerified: bool,
    verificationCode: Option<string>)

  /** The declared lengths of the bookings columns that hold client text. */
  const PhoneColumnLength: nat := 20
  const NameColumnLength: nat := 255
  const CodeColumnLength: nat := 6

  /** An optional text fits its column when it is absent (NULL) or the column accepts it. */
  predicate OptionalFits(v: Option<string>, n: nat) {
    v.None? || ColumnText(v.value, n).Some?
  }

  /** The request's phone, name and code fit the varchar columns they go to. */
  predicate ColumnsFit(req: BookingRequest)
    requires req.customerPhone.Some?
  {
    ColumnText(req.customerPhone.value, PhoneColumnLength).Some? &&
    OptionalFits(req.customerName, NameColumnLength) &&
    OptionalFits(req.verificationCode, CodeColumnLength)
  }

  /** The optional text as its column stores it. */
  function OptionalText(v: Option<string>, n: nat): Option<string>
    requires OptionalFits(v, n)
  {
    if v.None? then None else ColumnText(v.value, n)
  }

  /** 201 with the stored row, 400 for a taken instant, 500 when the insert fails. */
  datatype Response = Created(booking: Booking) | Conflict | ServerError

  /**
    The response to a booking request. A request is refused with a conflict
    exactly when p has a non-cancelled booking at the same instant; otherwise
    the insert succeeds when the date, phone and amount columns it needs are
    present and the phone, name and code fit their columns, and the new row
    is pending, unpaid and unverified whatever the client sent. The text
    columns keep what the client sent, as the columns store it.
   */
  function BookingResponse(bookings: seq<Booking>, nextId: nat, req: BookingRequest, now: int): (r: Response)
    ensures r.Conflict? <==> HasConflict(bookings, req.professionalId, req.bookingDate)
    ensures r.Created? <==>
      !HasConflict(bookings, req.professionalId, req.bookingDate) &&
      req.bookingDate.Some? && req.customerPhone.Some? && req.totalAmount.Some? && ColumnsFit(req)
    ensures r.Created? ==>
      r.booking.id == nextId && r.booking.professionalId == req.professionalId &&
      r.booking.serviceId == req.serviceId && Some(r.booking.bookingDate) == req.bookingDate &&
      Some(r.booking.customerPhone) == ColumnText(req.customerPhone.value, PhoneColumnLength) &&
      (r.booking.customerName.Some? <==> req.customerName.Some?) &&
      (req.customerName.Some? ==> r.booking.customerName == ColumnText(req.customerName.value, NameColumnLength)) &&
      r.booking.status == Pending && r.booking.paymentStatus == PaymentPending && !r.booking.phoneVerified &&
      (r.booking.verificationCode.Some? <==> req.verificationCode.Some?) &&
      (req.verificationCode.Some? ==> r.booking.verificationCode == ColumnText(req.verificationCode.value, CodeColumnLength)) &&
      r.booking.codeExpiresAt.None? && r.booking.createdAt == now
  {
    ScanFindsConflict(bookings, req.professionalId, req.bookingDate);
    if FindConflict(ProfessionalBookings(bookings, req.professionalId), req.bookingDate).Some? then Conflict
    else if req.bookingDate.None? || req.customerPhone.None? || req.totalAmount.None? then ServerError
    else if !ColumnsFit(req) then ServerError
    else Created(InsertedRow(req, now).(id := nextId))
  }

  /**
    The row the insert stores: the request with the status fields forced and
    its text as the columns keep it.
   */
  function InsertedRow(req: BookingRequest, now: int): Booking
    requires req.bookingDate.Some? && req.customerPhone.Some? && req.totalAmount.Some? && ColumnsFit(req)
  {
    Booking(0, OptionalText(req.customerName, NameColumnLength),
      ColumnText(req.customerPhone.value, PhoneColumnLength).value, req.professionalId, req.serviceId,
      req.bookingDate.value, req.totalAmount.value, Pending, PaymentPending, false,
      OptionalText(req.verificationCode, CodeColumnLength), None, now)
  }

  /**
    POST /api/bookings: scan p's bookings for the instant, refuse on a match,
    otherwise insert. The table changes only when the booking is created.
   */
  method PostBooking(store: Store, req: BookingRequest, now: int) returns (resp: Response)
    requires store.Valid()
    modifies store`bookings, store`nextBookingId
    ensures store.Valid()
    ensures resp == BookingResponse(old(store.bookings), old(store.nextBookingId), req, now)
    ensures store.bookings == old(store.bookings) + (if resp.Created? then [resp.booking] else [])
    ensures store.nextBookingId == old(store.nextBookingId) + (if resp.Created? then 1 else 0)
  {
    var existing := ProfessionalBookings(store.bookings, req.professionalId);
    var conflicting := FindConflict(existing, req.bookingDate);
    if conflicting.Some? {
      return Conflict;
    }
    if req.bookingDate.None? || req.customerPhone.None? || req.totalAmount.None? || !ColumnsFit(req) {
      return ServerError;
    }
    var booking := store.CreateBooking(InsertedRow(req, now));
    return Created(booking);
  }

  /**
    Once a request is created, any later request for the same professional
    and instant is refused: the new row is pending, so it blocks.
   */
  lemma {:induction false} NoDoubleBooking(bookings: seq<Booking>, nextId: nat, req: BookingRequest, now: int, again: BookingRequest, nextId': nat, later: int)
    requires BookingResponse(bookings, nextId, req, now).Created?
    requires again.professionalId == req.professionalId && again.bookingDate == req.bookingDate
    ensures BookingResponse(bookings + [BookingResponse(bookings, nextId, req, now).booking], nextId', again, later) == Conflict
  {
    var b := BookingResponse(bookings, nextId, req, now).booking;
    AcceptedBlocksSameInstant(bookings, b, req.professionalId, b.bookingDate);
    ScanFindsConflict(bookings + [b], req.professionalId, again.bookingDate);
  }

  /**
    Conflicts are exact-instant only: with p's one booking at t, a request
    for one minute later is not refused, although the two overlap.
   */
  lemma NextMinuteNotRefused(b: Booking, nextId: nat, req: BookingRequest, now: int)
    requires b.professionalId == req.professionalId && b.status == Pending
    requires req.bookingDate == Some(b.bookingDate + MsPerMinute)
    ensures BookingResponse([b], nextId, req, now) != Conflict
  {
  }

  /**
    A request that names a slot but no readable date meets no conflict and
    then fails at the insert; no slot is booked on this path either, since
    the handler never touches the slot table.
   */
  lemma RequestWithoutDateFails(bookings: seq<Booking>, nextId: nat, req: BookingRequest, now: int)
    requires req.bookingDate.None?
    ensures BookingResponse(bookings, nextId, req, now) == ServerError
  {
  }

  /**
    A phone number of 21 characters does not fit its varchar(20) column: the
    insert fails, so the request is never created.
   */
  lemma {:induction false} OverlongPhoneNotCreated(bookings: seq<Booking>, nextId: nat, req: BookingRequest, now: int)
    requires req.customerPhone == Some("551199999999999999999")
    ensures !BookingResponse(bookings, nextId, req, now).Created?
  {
    assert req.customerPhone.value[PhoneColumnLength] == '9';
  }

  /** The status fields a client sends have no effect on the outcome. */
  lemma ClientStatusIgnored(bookings: seq<Booking>, nextId: nat, req: BookingRequest, now: int,
                            status: Status, paymentStatus: PaymentStatus, phoneVerified: bool)
    ensures BookingResponse(bookings, nextId, req.(status := status, paymentStatus := paymentStatus, phoneVerified := phoneVerified), now)
      == BookingResponse(bookings, nextId, req, now)
  {
  }

  /**
    A code the client puts in the request body is stored, but without an
    expiry. With the clock not behind any stored row, the new row is the
    phone's newest booking, so no code is accepted for the phone until one
    is sent.
   */
  lemma {:induction false} ClientCodeNotAccepted(bookings: seq<Booking>, nextId: nat, req: BookingRequest, now: int, code: string, later: int)
    requires req.bookingDate.Some? && req.customerPhone.Some? && req.totalAmount.Some?
    requires !HasConflict(bookings, req.professionalId, req.bookingDate)
    requires forall i :: 0 <= i < |bookings| ==> bookings[i].createdAt <= now
    ensures BookingResponse(bookings, nextId, req, now).Created? <==> ColumnsFit(req)
    ensures BookingResponse(bookings, nextId, req, now).Created? ==>
      !CodeAccepted(bookings + [BookingResponse(bookings, nextId, req, now).booking],
                    BookingResponse(bookings, nextId, req, now).booking.customerPhone, code, later)
  {
    var r := BookingResponse(bookings, nextId, req, now);
    if r.Created? {
      AppendedIsNewest(bookings, r.booking);
      assert (bookings + [r.booking])[|bookings|] == r.booking;
    }
  }

  const PaymentSucceeded: string := "payment_intent.succeeded"

  /**
    The webhook's effect on the bookings table: a succeeded payment whose
    metadata names a non-zero booking id confirms that booking; every other
    event leaves the table as it is. None stands for an id that does not
    parse as an integer.
   */
  function WebhookEffect(bookings: seq<Booking>, eventType: string, bookingId: Option<int>): (r: seq<Booking>)
    ensures |r| == |bookings|
    ensures eventType != PaymentSucceeded || bookingId.None? || bookingId == Some(0) ==> r == bookings
  {
    if eventType == PaymentSucceeded && bookingId.Some? && bookingId.value != 0
    then ConfirmPaid(bookings, bookingId.value)
    else bookings
  }

  /** POST /api/webhooks/stripe, restricted to its effect on the store. */
  method StripeWebhook(store: Store, eventType: string, bookingId: Option<int>)
    requires store.Valid()
    modifies store`bookings
    ensures store.Valid()
    ensures store.bookings == WebhookEffect(old(store.bookings), eventType, bookingId)
  {
    if eventType == PaymentSucceeded {
      if bookingId.Some? && bookingId.value != 0 {
        store.UpdateBookingPaid(bookingId.value);
      }
    }
  }

  /**
    A succeeded payment for booking id marks exactly that row paid and
    confirmed; every field of every other row, and every other field of that
    row, stays as it was.
   */
  lemma PaymentConfirmsOnlyTarget(bookings: seq<Booking>, id: int, i: nat)
    requires id != 0 && i < |bookings|
    ensures var after := WebhookEffect(bookings, PaymentSucceeded, Some(id));
      if bookings[i].id == id
      then after[i].status == Confirmed && after[i].paymentStatus == Paid &&
           after[i] == bookings[i].(status := Confirmed, paymentStatus := Paid)
      else after[i] == bookings[i]
  {
  }

  /** A payment never frees an instant: whatever blocked a request before still blocks it. */
  lemma {:induction false} PaymentKeepsConflicts(bookings: seq<Booking>, eventType: string, bookingId: Option<int>, p: int, t: Option<int>)
    requires HasConflict(bookings, p, t)
    ensures HasConflict(WebhookEffect(bookings, eventType, bookingId), p, t)
  {
    var after := WebhookEffect(bookings, eventType, bookingId);
    var b :| b in bookings && b.professionalId == p && Blocks(b, t);
    var i :| 0 <= i < |bookings| && bookings[i] == b;
    assert after[i] in after;
  }

  /**
    A payment event for a cancelled booking confirms it, and the instant is
    blocked again for new requests.
   */
  lemma {:induction false} PaymentRevivesCancelled(b: Booking, req: BookingRequest, nextId: nat, now: int)
    requires b.id != 0 && b.status == Cancelled
    requires req.professionalId == b.professionalId && req.bookingDate == Some(b.bookingDate)
    ensures BookingResponse([b], nextId, req, now) != Conflict
    ensures BookingResponse(WebhookEffect([b], PaymentSucceeded, Some(b.id)), nextId, req, now) == Conflict
  {
    var after := WebhookEffect([b], PaymentSucceeded, Some(b.id));
    assert after[0] in after;
  }
}
