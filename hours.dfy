/**
  The business-hours table as a value: a professional's weekly opening
  windows, replaced wholesale whenever the owner saves the week.
 */
module HoursTable {
  import opened Records
  import opened Sorting

  ghost predicate HoursIdsIncreasing(hours: seq<HoursRow>) {
    forall i, j :: 0 <= i < j < |hours| ==> hours[i].id < hours[j].id
  }

  /** Row ids grow along the table and stay below the next id to hand out. */
  ghost predicate HoursIdsOrdered(hours: seq<HoursRow>, next: nat) {
    HoursIdsIncreasing(hours) && forall i :: 0 <= i < |hours| ==> hours[i].id < next
  }

  /** The rows of professional p, in table order. */
  function RowsOf(hours: seq<HoursRow>, p: int): (r: seq<HoursRow>)
    ensures forall x :: x in r <==> x in hours && x.professionalId == p
  {
    if hours == [] then []
    else
      (if hours[0].professionalId == p then [hours[0]] else []) + RowsOf(hours[1..], p)
  }

  /** The table with every row of professional p deleted. */
  function RowsNotOf(hours: seq<HoursRow>, p: int): (r: seq<HoursRow>)
    ensures forall x :: x in r <==> x in hours && x.professionalId != p
    ensures HoursIdsIncreasing(hours) ==> HoursIdsIncreasing(r)
  {
    if hours == [] then []
    else
      var rest := RowsNotOf(hours[1..], p);
      assert HoursIdsIncreasing(hours) ==> HoursIdsIncreasing(hours[1..]);
      assert forall k :: 0 <= k < |rest| ==> rest[k] in hours[1..];
      if hours[0].professionalId == p then rest else [hours[0]] + rest
  }

  /** The rows slot generation works from: professional p, this weekday, active. */
  function ActiveRowsFor(hours: seq<HoursRow>, p: int, weekday: int): (r: seq<HoursRow>)
    ensures forall x :: x in r <==> x in hours && x.professionalId == p && x.dayOfWeek == weekday && x.isActive
  {
    if hours == [] then []
    else
      var x := hours[0];
      (if x.professionalId == p && x.dayOfWeek == weekday && x.isActive then [x] else []) +
      ActiveRowsFor(hours[1..], p, weekday)
  }

  /** The owner's inputs stored for p, with ids handed out from firstId upwards. */
  function NewRows(input: seq<HoursInput>, p: int, firstId: nat): (r: seq<HoursRow>)
    ensures |r| == |input|
    ensures forall k :: 0 <= k < |r| ==> r[k] == RowOf(input[k], p, firstId + k)
    decreases |input|
  {
    if input == [] then [] else [RowOf(input[0], p, firstId)] + NewRows(input[1..], p, firstId + 1)
  }

  /** The declared length of the startTime and endTime columns, varchar(5). */
  const TimeColumnLength: nat := 5

  /** One submitted entry as the insert stores it, or None when a time does not fit its column. */
  function StoredEntry(e: HoursInput): Option<HoursInput> {
    match (ColumnText(e.startTime, TimeColumnLength), ColumnText(e.endTime, TimeColumnLength))
    case (Some(start), Some(end)) => Some(e.(startTime := start, endTime := end))
    case _ => None
  }

  /**
    The submitted list as the one multi-row insert stores it: every entry, or
    None (the whole insert fails) as soon as one entry does not fit.
   */
  function StoredEntries(input: seq<HoursInput>): (r: Option<seq<HoursInput>>)
    ensures r.None? <==> exists k :: 0 <= k < |input| && StoredEntry(input[k]).None?
    ensures r.Some? ==> |r.value| == |input| && forall k :: 0 <= k < |input| ==> StoredEntry(input[k]) == Some(r.value[k])
  {
    if input == [] then Some([])
    else
      match (StoredEntry(input[0]), StoredEntries(input[1..]))
      case (Some(e), Some(rest)) =>
        assert forall k :: 0 < k < |input| ==> input[k] == input[1..][k - 1];
        Some([e] + rest)
      case (None, _) => None
      case (_, None) =>
        var k :| 0 <= k < |input[1..]| && StoredEntry(input[1..][k]).None?;
        assert input[k + 1] == input[1..][k];
        None
  }

  /** Times of at most five characters are stored as sent. */
  lemma {:induction false} ShortTimesStoredAsSent(input: seq<HoursInput>)
    requires forall k :: 0 <= k < |input| ==> |input[k].startTime| <= TimeColumnLength && |input[k].endTime| <= TimeColumnLength
    ensures StoredEntries(input) == Some(input)
  {
    forall k | 0 <= k < |input| ensures StoredEntry(input[k]) == Some(input[k]) {
      assert ColumnText(input[k].startTime, TimeColumnLength) == Some(input[k].startTime);
      assert ColumnText(input[k].endTime, TimeColumnLength) == Some(input[k].endTime);
    }
    var r := StoredEntries(input);
    assert r.Some?;
    assert forall k :: 0 <= k < |input| ==> r.value[k] == input[k];
    assert r.value == input;
  }

  /** createOrUpdateBusinessHours when the insert succeeds: delete all of p's rows, then insert the new list. */
  function ReplaceHours(hours: seq<HoursRow>, p: int, input: seq<HoursInput>, firstId: nat): (r: seq<HoursRow>)
    ensures HoursIdsOrdered(hours, firstId) ==> HoursIdsOrdered(r, firstId + |input|)
  {
    var kept := RowsNotOf(hours, p);
    var added := NewRows(input, p, firstId);
    assert HoursIdsOrdered(hours, firstId) ==> HoursIdsOrdered(kept, firstId) by {
      if HoursIdsOrdered(hours, firstId) {
        forall i | 0 <= i < |kept| ensures kept[i].id < firstId {
          assert kept[i] in hours;
        }
      }
    }
    kept + added
  }

  /**
    createOrUpdateBusinessHours: the delete of p's rows always takes effect;
    the insert that follows adds the stored entries, or nothing when it fails.
    The two statements share no transaction.
   */
  function SavedHours(hours: seq<HoursRow>, p: int, input: seq<HoursInput>, firstId: nat): (r: seq<HoursRow>)
    ensures HoursIdsOrdered(hours, firstId) ==>
      HoursIdsOrdered(r, firstId + if StoredEntries(input).Some? then |input| else 0)
  {
    match StoredEntries(input)
    case Some(stored) => ReplaceHours(hours, p, stored, firstId)
    case None =>
      var r := RowsNotOf(hours, p);
      assert HoursIdsOrdered(hours, firstId) ==> HoursIdsOrdered(r, firstId) by {
        if HoursIdsOrdered(hours, firstId) {
          forall i | 0 <= i < |r| ensures r[i].id < firstId {
            assert r[i] in hours;
          }
        }
      }
      r
  }

  function DayOf(row: HoursRow): int { row.dayOfWeek }

  /** getBusinessHours: p's rows, ordered by weekday. */
  function BusinessHoursOf(hours: seq<HoursRow>, p: int): (r: seq<HoursRow>)
    ensures SortedBy(r, DayOf)
    ensures forall x :: x in r <==> x in hours && x.professionalId == p
    ensures multiset(r) == multiset(RowsOf(hours, p))
  {
    var m := RowsOf(hours, p);
    var r := SortBy(m, DayOf);
    assert forall x :: x in r <==> x in multiset(m);
    r
  }

  /** The owner-visible part of each row. */
  function Inputs(rows: seq<HoursRow>): (r: seq<HoursInput>)
    ensures |r| == |rows|
    ensures forall k :: 0 <= k < |r| ==> r[k] == InputOf(rows[k])
  {
    if rows == [] then [] else [InputOf(rows[0])] + Inputs(rows[1..])
  }

  lemma {:induction false} RowsOfConcat(a: seq<HoursRow>, b: seq<HoursRow>, p: int)
    ensures RowsOf(a + b, p) == RowsOf(a, p) + RowsOf(b, p)
  {
    if a != [] {
      var head := if a[0].professionalId == p then [a[0]] else [];
      assert (a + b)[0] == a[0];
      assert (a + b)[1..] == a[1..] + b;
      calc {
        RowsOf(a + b, p);
        head + RowsOf(a[1..] + b, p);
        { RowsOfConcat(a[1..], b, p); }
        head + (RowsOf(a[1..], p) + RowsOf(b, p));
        (head + RowsOf(a[1..], p)) + RowsOf(b, p);
        RowsOf(a, p) + RowsOf(b, p);
      }
    } else {
      assert a + b == b;
    }
  }

  lemma {:induction false} RowsOfRowsNotOf(hours: seq<HoursRow>, p: int, q: int)
    ensures RowsOf(RowsNotOf(hours, p), q) == if q == p then [] else RowsOf(hours, q)
  {
    if hours != [] {
      RowsOfRowsNotOf(hours[1..], p, q);
      if hours[0].professionalId != p {
        assert ([hours[0]] + RowsNotOf(hours[1..], p))[1..] == RowsNotOf(hours[1..], p);
      }
    }
  }

  lemma {:induction false} RowsOfNewRows(input: seq<HoursInput>, p: int, firstId: nat, q: int)
    ensures RowsOf(NewRows(input, p, firstId), q) == if q == p then NewRows(input, p, firstId) else []
    decreases |input|
  {
    if input != [] {
      RowsOfNewRows(input[1..], p, firstId + 1, q);
      var r := NewRows(input, p, firstId);
      assert r[1..] == NewRows(input[1..], p, firstId + 1);
    }
  }

  /** The stored rows carry exactly the submitted entries, in order. */
  lemma InputsOfNewRows(input: seq<HoursInput>, p: int, firstId: nat)
    ensures Inputs(NewRows(input, p, firstId)) == input
  {
    var rows := NewRows(input, p, firstId);
    assert forall k :: 0 <= k < |input| ==> Inputs(rows)[k] == input[k];
  }

  /**
    After the week is saved, p's rows are exactly the submitted list, in the
    submitted order and carrying p.
   */
  lemma ReplaceHoursSetsRows(hours: seq<HoursRow>, p: int, input: seq<HoursInput>, firstId: nat)
    ensures var rows := RowsOf(ReplaceHours(hours, p, input, firstId), p);
      Inputs(rows) == input && forall x :: x in rows ==> x.professionalId == p
  {
    RowsOfConcat(RowsNotOf(hours, p), NewRows(input, p, firstId), p);
    RowsOfRowsNotOf(hours, p, p);
    RowsOfNewRows(input, p, firstId, p);
    InputsOfNewRows(input, p, firstId);
  }

  /** Saving p's week leaves every other professional's rows as they were. */
  lemma ReplaceHoursKeepsOthers(hours: seq<HoursRow>, p: int, input: seq<HoursInput>, firstId: nat, q: int)
    requires q != p
    ensures RowsOf(ReplaceHours(hours, p, input, firstId), q) == RowsOf(hours, q)
  {
    RowsOfConcat(RowsNotOf(hours, p), NewRows(input, p, firstId), q);
    RowsOfRowsNotOf(hours, p, q);
    RowsOfNewRows(input, p, firstId, q);
  }

  /**
    Reading the week back after saving it gives the rows just stored, in
    weekday order, whatever was stored before.
   */
  lemma WeekReadsBack(hours: seq<HoursRow>, p: int, input: seq<HoursInput>, firstId: nat)
    ensures multiset(BusinessHoursOf(ReplaceHours(hours, p, input, firstId), p)) == multiset(NewRows(input, p, firstId))
    ensures forall e :: e in input <==>
      exists x :: x in BusinessHoursOf(ReplaceHours(hours, p, input, firstId), p) && InputOf(x) == e
  {
    var rows := NewRows(input, p, firstId);
    RowsOfConcat(RowsNotOf(hours, p), rows, p);
    RowsOfRowsNotOf(hours, p, p);
    RowsOfNewRows(input, p, firstId, p);
    EntriesReadBack(BusinessHoursOf(ReplaceHours(hours, p, input, firstId), p), input, p, firstId);
  }

  /** Any reordering of the inserted rows shows exactly the submitted entries. */
  lemma {:induction false} EntriesReadBack(week: seq<HoursRow>, input: seq<HoursInput>, p: int, firstId: nat)
    requires multiset(week) == multiset(NewRows(input, p, firstId))
    ensures forall e :: e in input <==> exists x :: x in week && InputOf(x) == e
  {
    var rows := NewRows(input, p, firstId);
    forall e | e in input ensures exists x :: x in week && InputOf(x) == e {
      var k :| 0 <= k < |input| && input[k] == e;
      assert rows[k] in multiset(week);
    }
    forall x | x in week ensures InputOf(x) in input {
      assert x in multiset(rows);
      var k :| 0 <= k < |rows| && rows[k] == x;
    }
  }

  /**
    When the insert fails, the delete before it has still taken effect: p is
    left with no hours, and every other professional keeps theirs.
   */
  lemma {:induction false} FailedSaveClearsWeek(hours: seq<HoursRow>, p: int, input: seq<HoursInput>, firstId: nat, q: int)
    requires StoredEntries(input).None?
    ensures RowsOf(SavedHours(hours, p, input, firstId), q) == if q == p then [] else RowsOf(hours, q)
  {
    RowsOfRowsNotOf(hours, p, q);
  }

  /**
    A time sent with seconds, "09:00:00", does not fit the five-character
    column: saving that week wipes p's hours instead of storing them.
   */
  lemma {:induction false} SecondsInTimeClearWeek(hours: seq<HoursRow>, p: int, firstId: nat)
    ensures RowsOf(SavedHours(hours, p, [HoursInput(1, "09:00:00", "18:00", true)], firstId), p) == []
  {
    var input := [HoursInput(1, "09:00:00", "18:00", true)];
    assert "09:00:00"[5] == ':';
    assert StoredEntry(input[0]).None?;
    FailedSaveClearsWeek(hours, p, input, firstId, p);
  }
}
