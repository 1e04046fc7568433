/**
  Rows of the scheduling database that the slot and availability engine
  works on, as values. Timestamps are integer milliseconds; a calendar date
  is abstracted as its local midnight together with its weekday.
 */
module Records {

  datatype Option<+T> = None | Some(value: T)

  const MsPerMinute: int := 60_000
  const MsPerDay: int := 86_400_000
  /** A verification code stays valid for ten minutes. */
  const CodeLifetimeMs: int := 10 * MsPerMinute

  /** The date a caller passes in: its local midnight and its weekday (0 = Sunday). */
  datatype CalendarDay = CalendarDay(midnight: int, weekday: int)

  /** A service of the catalogue; generation reads only its duration (minutes). */
  datatype Service = Service(duration: int)

  /** One weekly opening window of a professional, times as "HH:MM" text. */
  datatype HoursRow = HoursRow(
    id: nat,
    professionalId: int,
    dayOfWeek: int,
    startTime: string,
    endTime: string,
    isActive: bool)

  /** What the owner submits for one weekday (the professional comes from the route). */
  datatype HoursInput = HoursInput(dayOfWeek: int, startTime: string, endTime: string, isActive: bool)

  datatype Slot = Slot(id: nat, professionalId: int, serviceId: int, slotDate: int, isBooked: bool)

  datatype Status = Pending | Confirmed | Completed | Cancelled

  datatype PaymentStatus = PaymentPending | Paid

  datatype Booking = Booking(
    id: nat,
    customerName: Option<string>,
    customerPhone: string,
    professionalId: int,
    serviceId: int,
    bookingDate: int,
    totalAmount: string,
    status: Status,
    paymentStatus: PaymentStatus,
    phoneVerified: bool,
    verificationCode: Option<string>,
    codeExpiresAt: Option<int>,
    createdAt: int)

  /**
    Text as a varchar(n) column of PostgreSQL stores it: unchanged when it
    fits; cut to n characters when everything past the n-th is a space;
    otherwise the statement fails (None).
   */
  function ColumnText(s: string, n: nat): (r: Option<string>)
    ensures r.Some? <==> |s| <= n || forall k :: n <= k < |s| ==> s[k] == ' '
    ensures r.Some? ==> |r.value| <= n && r.value <= s && forall k :: |r.value| <= k < |s| ==> s[k] == ' '
    ensures |s| <= n ==> r == Some(s)
  {
    if |s| <= n then Some(s)
    else if forall k :: n <= k < |s| ==> s[k] == ' ' then Some(s[..n])
    else None
  }

  /** The row an owner's input becomes once it is stored for professional p. */
  function RowOf(input: HoursInput, p: int, id: nat): (r: HoursRow)
    ensures r.professionalId == p && r.id == id
    ensures InputOf(r) == input
  {
    HoursRow(id, p, input.dayOfWeek, input.startTime, input.endTime, input.isActive)
  }

  /** The owner-visible part of a stored row. */
  function InputOf(row: HoursRow): HoursInput {
    HoursInput(row.dayOfWeek, row.startTime, row.endTime, row.isActive)
  }
}
