/**
  The bookings table as a value: the conflict scan of the booking route, the
  phone-verification code state machine and the payment confirmation.
 */
module BookingTable {
  import opened Records
  import opened Sorting

  ghost predicate BookingIdsOrdered(bookings: seq<Booking>, next: nat) {
    (forall i, j :: 0 <= i < j < |bookings| ==> bookings[i].id < bookings[j].id) &&
    (forall i :: 0 <= i < |bookings| ==> bookings[i].id < next)
  }

  /** The WHERE clause of getBookingsByProfessional: p's bookings, in table order. */
  function BookingsOf(bookings: seq<Booking>, p: int): (r: seq<Booking>)
    ensures forall b :: b in r <==> b in bookings && b.professionalId == p
  {
    if bookings == [] then []
    else (if bookings[0].professionalId == p then [bookings[0]] else []) + BookingsOf(bookings[1..], p)
  }

  /** The sort key of ORDER BY bookingDate DESC. */
  function LaterFirst(b: Booking): int { -b.bookingDate }

  /**
    getBookingsByProfessional: p's bookings, latest booking date first, each
    exactly as often as the table holds it.
   */
  function ProfessionalBookings(bookings: seq<Booking>, p: int): (r: seq<Booking>)
    ensures forall i, j :: 0 <= i < j < |r| ==> r[i].bookingDate >= r[j].bookingDate
    ensures multiset(r) == multiset(BookingsOf(bookings, p))
    ensures forall b :: b in r <==> b in bookings && b.professionalId == p
  {
    var m := BookingsOf(bookings, p);
    var r := SortBy(m, LaterFirst);
    assert forall b :: b in r <==> b in multiset(m);
    assert forall i, j :: 0 <= i < j < |r| ==> LaterFirst(r[i]) <= LaterFirst(r[j]);
    r
  }

  /**
    An existing booking blocks a request for instant t when it is at exactly
    that instant and not cancelled. A request without a readable date (None)
    is never blocked: NaN equals no timestamp.
   */
  predicate Blocks(b: Booking, t: Option<int>) {
    t == Some(b.bookingDate) && b.status != Cancelled
  }

  /** The `find` of the booking route: the first blocking booking of the list, if any. */
  function FindConflict(existing: seq<Booking>, t: Option<int>): (r: Option<Booking>)
    ensures r.Some? ==> r.value in existing && Blocks(r.value, t)
    ensures r.None? <==> forall b :: b in existing ==> !Blocks(b, t)
    ensures r.Some? ==>
      exists i :: 0 <= i < |existing| && existing[i] == r.value && forall j :: 0 <= j < i ==> !Blocks(existing[j], t)
  {
    if existing == [] then None
    else if Blocks(existing[0], t) then Some(existing[0])
    else
      var r := FindConflict(existing[1..], t);
      assert r.Some? ==> r.value in existing;
      assert forall b :: b in existing ==> b == existing[0] || b in existing[1..];
      if r.Some? then
        var i :| 0 <= i < |existing[1..]| && existing[1..][i] == r.value &&
          forall j :: 0 <= j < i ==> !Blocks(existing[1..][j], t);
        assert existing[i + 1] == r.value;
        assert forall j :: 0 <= j < i + 1 ==> !Blocks(existing[j], t) by {
          forall j | 0 <= j < i + 1 ensures !Blocks(existing[j], t) {
            if j > 0 { assert existing[j] == existing[1..][j - 1]; }
          }
        }
        r
      else r
  }

  /** Some booking of professional p blocks instant t. */
  predicate HasConflict(bookings: seq<Booking>, p: int, t: Option<int>) {
    exists b :: b in bookings && b.professionalId == p && Blocks(b, t)
  }

  /**
    Whether the scan finds a conflict does not depend on the order of the
    list it scans: any reordering of the same bookings gives the same verdict.
   */
  lemma {:induction false} ConflictVerdictOrderFree(a: seq<Booking>, b: seq<Booking>, t: Option<int>)
    requires multiset(a) == multiset(b)
    ensures FindConflict(a, t).Some? == FindConflict(b, t).Some?
  {
    assert forall x :: x in a <==> x in multiset(b);
  }

  /** The route's scan finds a conflict exactly when p has a booking blocking t. */
  lemma ScanFindsConflict(bookings: seq<Booking>, p: int, t: Option<int>)
    ensures FindConflict(ProfessionalBookings(bookings, p), t).Some? <==> HasConflict(bookings, p, t)
  {
  }

  /** A cancelled booking, or one of another professional, never becomes a conflict for p. */
  lemma {:induction false} NonBlockingAddition(bookings: seq<Booking>, b: Booking, p: int, t: Option<int>)
    requires b.status == Cancelled || b.professionalId != p || t != Some(b.bookingDate)
    ensures FindConflict(ProfessionalBookings(bookings + [b], p), t).Some? == FindConflict(ProfessionalBookings(bookings, p), t).Some?
  {
    ScanFindsConflict(bookings + [b], p, t);
    ScanFindsConflict(bookings, p, t);
    assert forall x :: x in bookings + [b] <==> x in bookings || x == b;
  }

  /** A pending booking of p at t makes every later request of p for t a conflict. */
  lemma {:induction false} AcceptedBlocksSameInstant(bookings: seq<Booking>, b: Booking, p: int, t: int)
    requires b.professionalId == p && b.bookingDate == t && b.status == Pending
    ensures FindConflict(ProfessionalBookings(bookings + [b], p), Some(t)).Some?
  {
    ScanFindsConflict(bookings + [b], p, Some(t));
    assert b in bookings + [b];
  }

  /** Index by index, b keeps a's ids, phones and creation times. */
  predicate Rekeyed(a: seq<Booking>, b: seq<Booking>) {
    |a| == |b| &&
    forall i :: 0 <= i < |a| ==>
      b[i].id == a[i].id && b[i].customerPhone == a[i].customerPhone && b[i].createdAt == a[i].createdAt
  }

  /** Rewrites that keep every row's id keep the id order. */
  lemma RekeyedKeepsOrder(a: seq<Booking>, b: seq<Booking>, next: nat)
    requires Rekeyed(a, b) && BookingIdsOrdered(a, next)
    ensures BookingIdsOrdered(b, next)
  {
  }

  /**
    The most recently created booking for this phone (ORDER BY createdAt DESC
    LIMIT 1); among equal creation times the later-inserted row.
   */
  function NewestFor(bookings: seq<Booking>, phone: string): (r: Option<nat>)
    ensures r.None? <==> forall i :: 0 <= i < |bookings| ==> bookings[i].customerPhone != phone
    ensures r.Some? ==> r.value < |bookings| && bookings[r.value].customerPhone == phone
    ensures r.Some? ==> forall j :: 0 <= j < |bookings| && bookings[j].customerPhone == phone ==>
      bookings[j].createdAt <= bookings[r.value].createdAt
    ensures r.Some? ==> forall j :: r.value < j < |bookings| ==>
      bookings[j].customerPhone != phone || bookings[j].createdAt < bookings[r.value].createdAt
  {
    if bookings == [] then None
    else
      var n := |bookings| - 1;
      var front := bookings[..n];
      var r := NewestFor(front, phone);
      assert forall i :: 0 <= i < n ==> front[i] == bookings[i];
      if bookings[n].customerPhone != phone then r
      else if r.None? || bookings[r.value].createdAt <= bookings[n].createdAt then Some(n)
      else r
  }

  /** A row appended with a creation time no earlier than any stored row is the newest for its phone. */
  lemma {:induction false} AppendedIsNewest(bookings: seq<Booking>, b: Booking)
    requires forall i :: 0 <= i < |bookings| ==> bookings[i].createdAt <= b.createdAt
    ensures NewestFor(bookings + [b], b.customerPhone) == Some(|bookings|)
  {
    var after := bookings + [b];
    assert after[|bookings|] == b;
    assert after[..|bookings|] == bookings;
  }

  /**
    The check of verifyPhoneCode: the newest booking for the phone carries
    this code and its expiry lies strictly after now.
   */
  predicate CodeAccepted(bookings: seq<Booking>, phone: string, code: string, now: int) {
    match NewestFor(bookings, phone)
    case None => false
    case Some(i) =>
      bookings[i].verificationCode == Some(code) &&
      bookings[i].codeExpiresAt.Some? && bookings[i].codeExpiresAt.value > now
  }

  /** generateVerificationCode: every booking for the phone gets the code and its expiry. */
  function WithCode(bookings: seq<Booking>, phone: string, code: string, expiresAt: int): (r: seq<Booking>)
    ensures |r| == |bookings|
    ensures Rekeyed(bookings, r)
    ensures forall i :: 0 <= i < |r| ==>
      r[i] == (if bookings[i].customerPhone == phone
               then bookings[i].(verificationCode := Some(code), codeExpiresAt := Some(expiresAt))
               else bookings[i])
  {
    if bookings == [] then []
    else
      var b := bookings[0];
      [if b.customerPhone == phone then b.(verificationCode := Some(code), codeExpiresAt := Some(expiresAt)) else b] +
      WithCode(bookings[1..], phone, code, expiresAt)
  }

  /** After a successful check: every booking for the phone is verified and its code cleared. */
  function MarkPhoneVerified(bookings: seq<Booking>, phone: string): (r: seq<Booking>)
    ensures |r| == |bookings|
    ensures Rekeyed(bookings, r)
    ensures forall i :: 0 <= i < |r| ==>
      r[i] == (if bookings[i].customerPhone == phone
               then bookings[i].(phoneVerified := true, verificationCode := None, codeExpiresAt := None)
               else bookings[i])
  {
    if bookings == [] then []
    else
      var b := bookings[0];
      [if b.customerPhone == phone then b.(phoneVerified := true, verificationCode := None, codeExpiresAt := None) else b] +
      MarkPhoneVerified(bookings[1..], phone)
  }

  /** updateBooking(id, paid, confirmed): the booking with this id is paid and confirmed, no other changes. */
  function ConfirmPaid(bookings: seq<Booking>, id: int): (r: seq<Booking>)
    ensures |r| == |bookings|
    ensures Rekeyed(bookings, r)
    ensures forall i :: 0 <= i < |r| ==>
      r[i] == (if bookings[i].id == id then bookings[i].(paymentStatus := Paid, status := Confirmed) else bookings[i])
  {
    if bookings == [] then []
    else
      var b := bookings[0];
      [if b.id == id then b.(paymentStatus := Paid, status := Confirmed) else b] + ConfirmPaid(bookings[1..], id)
  }

  /** Rewrites that keep every row's phone and creation time keep the newest booking for a phone. */
  lemma NewestUnchanged(bookings: seq<Booking>, after: seq<Booking>, phone: string)
    requires Rekeyed(bookings, after)
    ensures NewestFor(after, phone) == NewestFor(bookings, phone)
  {
  }

  /**
    A code just sent to a phone with bookings is accepted exactly while the
    ten minutes have not run out.
   */
  lemma FreshCodeAccepted(bookings: seq<Booking>, phone: string, code: string, sentAt: int, now: int)
    requires exists i :: 0 <= i < |bookings| && bookings[i].customerPhone == phone
    ensures CodeAccepted(WithCode(bookings, phone, code, sentAt + CodeLifetimeMs), phone, code, now) <==>
      now < sentAt + CodeLifetimeMs
  {
    NewestUnchanged(bookings, WithCode(bookings, phone, code, sentAt + CodeLifetimeMs), phone);
  }

  /** A code works once: after a successful check it is cleared, so the same code is refused. */
  lemma CodeSingleUse(bookings: seq<Booking>, phone: string, code: string, now: int, later: int)
    requires CodeAccepted(bookings, phone, code, now)
    ensures !CodeAccepted(MarkPhoneVerified(bookings, phone), phone, code, later)
  {
    NewestUnchanged(bookings, MarkPhoneVerified(bookings, phone), phone);
  }

  /** A wrong code never passes, whatever the clock says. */
  lemma WrongCodeRefused(bookings: seq<Booking>, phone: string, code: string, other: string, now: int)
    requires CodeAccepted(bookings, phone, code, now) && other != code
    ensures !CodeAccepted(bookings, phone, other, now)
  {
  }
}
