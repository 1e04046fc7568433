/**
  The available-slots table as a value: the queries the store runs on it and
  the single-row updates it applies.
 */
module SlotTable {
  import opened Records
  import opened Sorting

  /** Row ids grow along the table and stay below the next id to hand out. */
  ghost predicate SlotIdsOrdered(slots: seq<Slot>, next: nat) {
    SlotIdsIncreasing(slots) && forall i :: 0 <= i < |slots| ==> slots[i].id < next
  }

  ghost predicate SlotIdsIncreasing(slots: seq<Slot>) {
    forall i, j :: 0 <= i < j < |slots| ==> slots[i].id < slots[j].id
  }

  /** Some slot already holds this (professional, service, instant) triple. */
  predicate SlotExists(slots: seq<Slot>, p: int, s: int, t: int) {
    exists i :: 0 <= i < |slots| && slots[i].professionalId == p && slots[i].serviceId == s && slots[i].slotDate == t
  }

  /**
    The calendar day that starts at local midnight m runs from m to
    m + 23:59:59.999, both ends included.
   */
  predicate InDay(t: int, midnight: int) {
    midnight <= t <= midnight + MsPerDay - 1
  }

  /** The filter of the availability query: this pair, not booked, on the day if one is given. */
  predicate Listed(x: Slot, p: int, s: int, day: Option<int>) {
    x.professionalId == p && x.serviceId == s && !x.isBooked &&
    (day.Some? ==> InDay(x.slotDate, day.value))
  }

  function MatchingSlots(slots: seq<Slot>, p: int, s: int, day: Option<int>): (r: seq<Slot>)
    ensures forall x :: x in r <==> x in slots && Listed(x, p, s, day)
    ensures forall x :: multiset(r)[x] == if Listed(x, p, s, day) then multiset(slots)[x] else 0
  {
    if slots == [] then []
    else
      assert slots == [slots[0]] + slots[1..];
      (if Listed(slots[0], p, s, day) then [slots[0]] else []) + MatchingSlots(slots[1..], p, s, day)
  }

  function SlotDateOf(x: Slot): int { x.slotDate }

  /**
    getAvailableSlots: the unbooked slots of professional p for service s,
    restricted to one calendar day when its midnight is given, in ascending
    slot time. Every qualifying row comes back exactly once and no other row
    does.
   */
  function AvailableSlots(slots: seq<Slot>, p: int, s: int, day: Option<int>): (r: seq<Slot>)
    ensures SortedBy(r, SlotDateOf)
    ensures forall x :: x in r <==> x in slots && Listed(x, p, s, day)
    ensures forall x :: multiset(r)[x] == if Listed(x, p, s, day) then multiset(slots)[x] else 0
    ensures forall x :: x in r ==> !x.isBooked
  {
    var m := MatchingSlots(slots, p, s, day);
    var r := SortBy(m, SlotDateOf);
    assert forall x :: x in r <==> x in multiset(m);
    r
  }

  /** bookSlot: the slot with this id becomes booked; every other row is kept as it was. */
  function MarkBooked(slots: seq<Slot>, id: nat): (r: seq<Slot>)
    ensures |r| == |slots|
    ensures forall i :: 0 <= i < |r| ==>
      r[i] == (if slots[i].id == id then slots[i].(isBooked := true) else slots[i])
  {
    if slots == [] then []
    else
      var x := slots[0];
      [if x.id == id then x.(isBooked := true) else x] + MarkBooked(slots[1..], id)
  }

  /** deleteAvailableSlot: exactly the row with this id disappears, the rest keep their order. */
  function WithoutSlot(slots: seq<Slot>, id: nat): (r: seq<Slot>)
    ensures forall x :: x in r <==> x in slots && x.id != id
    ensures SlotIdsIncreasing(slots) ==> SlotIdsIncreasing(r)
  {
    if slots == [] then []
    else
      var rest := WithoutSlot(slots[1..], id);
      assert slots == [slots[0]] + slots[1..];
      if slots[0].id == id then rest
      else
        assert SlotIdsIncreasing(slots) ==> SlotIdsIncreasing([slots[0]] + rest) by {
          if SlotIdsIncreasing(slots) {
            assert forall k :: 0 <= k < |rest| ==> rest[k] in slots[1..];
            ConsIncreasing(slots[0], rest);
          }
        }
        [slots[0]] + rest
  }

  /** A row whose id is below every id of an increasing table can go in front of it. */
  lemma {:induction false} ConsIncreasing(x: Slot, rest: seq<Slot>)
    requires SlotIdsIncreasing(rest)
    requires forall k :: 0 <= k < |rest| ==> x.id < rest[k].id
    ensures SlotIdsIncreasing([x] + rest)
  {
    var r := [x] + rest;
    forall i, j | 0 <= i < j < |r| ensures r[i].id < r[j].id {
      assert r[j] == rest[j - 1];
      if i > 0 {
        assert r[i] == rest[i - 1];
      }
    }
  }

  /** Appending rows with ids from the counter upwards keeps the id order. */
  lemma AppendKeepsOrder(slots: seq<Slot>, added: seq<Slot>, next: nat, next': nat)
    requires SlotIdsOrdered(slots, next)
    requires forall k :: 0 <= k < |added| ==> added[k].id == next + k
    requires next' == next + |added|
    ensures SlotIdsOrdered(slots + added, next')
  {
  }

  /** Once booked, a slot is never offered by the availability query. */
  lemma {:induction false} BookedSlotNotListed(slots: seq<Slot>, id: nat, p: int, s: int, day: Option<int>)
    ensures forall x :: x in AvailableSlots(MarkBooked(slots, id), p, s, day) ==> x.id != id
  {
    var b := MarkBooked(slots, id);
    forall x | x in AvailableSlots(b, p, s, day) ensures x.id != id {
      assert x in b && Listed(x, p, s, day);
      var i :| 0 <= i < |b| && b[i] == x;
    }
  }

  /**
    Booking a slot takes exactly that slot out of the listing: every other
    slot is listed afterwards iff it was listed before.
   */
  lemma {:induction false} BookingKeepsOtherListings(slots: seq<Slot>, id: nat, p: int, s: int, day: Option<int>, i: nat)
    requires i < |slots| && slots[i].id != id
    ensures slots[i] in AvailableSlots(MarkBooked(slots, id), p, s, day) <==> slots[i] in AvailableSlots(slots, p, s, day)
  {
    var b := MarkBooked(slots, id);
    assert b[i] == slots[i];
  }
}
