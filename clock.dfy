/**
  Wall-clock arithmetic of slot generation: reading an "HH:MM" opening time,
  placing it on a calendar day, and stepping through a window by the length
  of a service.
 */
module Clock {
  import opened Records

  predicate IsDigit(c: char) { '0' <= c <= '9' }

  /**
    The number a string of decimal digits denotes, as JavaScript's Number()
    reads it; the empty string reads as 0. None stands for NaN.
   */
  function DecimalValue(ds: string): (r: Option<nat>)
    ensures r.Some? <==> forall i :: 0 <= i < |ds| ==> IsDigit(ds[i])
    ensures ds == [] ==> r == Some(0)
  {
    if ds == [] then Some(0)
    else match DecimalValue(ds[..|ds| - 1])
      case None => None
      case Some(v) =>
        var c := ds[|ds| - 1];
        if IsDigit(c) then Some(10 * v + (c - '0') as nat) else None
  }

  /** The text in front of the first ':' (the whole string if there is none). */
  function BeforeColon(s: string): (r: string)
    ensures r <= s && ':' !in r
    ensures |r| < |s| ==> s[|r|] == ':'
  {
    if s == [] || s[0] == ':' then [] else [s[0]] + BeforeColon(s[1..])
  }

  /**
    Minutes past midnight that an "HH:MM" string names: the first two
    ':'-separated fields read as hours and minutes, anything after a second
    ':' ignored. None when either field is not a number or the ':' is missing
    (the source's Date then becomes invalid).
   */
  function ParseClock(s: string): (r: Option<int>)
    ensures ':' !in s ==> r.None?
    ensures r.Some? <==>
      |BeforeColon(s)| < |s| && DecimalValue(BeforeColon(s)).Some? &&
      DecimalValue(BeforeColon(s[|BeforeColon(s)| + 1..])).Some?
    ensures r.Some? ==> r.value >= 0
  {
    var h := BeforeColon(s);
    if |h| == |s| then None
    else
      var m := BeforeColon(s[|h| + 1..]);
      match (DecimalValue(h), DecimalValue(m))
      case (Some(hv), Some(mv)) => Some(hv * 60 + mv)
      case _ => None
  }

  function DigitChar(d: nat): (c: char)
    requires d < 10
    ensures IsDigit(c) && (c - '0') as nat == d
  {
    '0' + d as char
  }

  /** The "HH:MM" text the owner's form submits for a time of day. */
  function FormatClock(hour: nat, minute: nat): (s: string)
    requires hour < 100 && minute < 100
    ensures |s| == 5 && s[2] == ':'
  {
    [DigitChar(hour / 10), DigitChar(hour % 10), ':', DigitChar(minute / 10), DigitChar(minute % 10)]
  }

  lemma TwoDigits(a: nat, b: nat)
    requires a < 10 && b < 10
    ensures DecimalValue([DigitChar(a), DigitChar(b)]) == Some(10 * a + b)
  {
    var ds := [DigitChar(a), DigitChar(b)];
    assert ds[..1] == [DigitChar(a)];
    assert ds[..1][..0] == [];
    assert DecimalValue([]) == Some(0);
    assert DecimalValue([DigitChar(a)]) == Some(a);
  }

  /** Reading back a formatted time gives hours * 60 + minutes. */
  lemma ParseFormatRoundTrip(hour: nat, minute: nat)
    requires hour < 100 && minute < 100
    ensures ParseClock(FormatClock(hour, minute)) == Some(hour * 60 + minute)
  {
    var s := FormatClock(hour, minute);
    var hs := [s[0], s[1]];
    assert s == hs + [':'] + s[3..];
    assert BeforeColon(s[2..]) == [];
    assert BeforeColon(s[1..]) == [s[1]];
    assert BeforeColon(s) == hs;
    var rest := s[3..];
    assert rest == [s[3], s[4]];
    assert BeforeColon(rest[2..]) == [];
    assert BeforeColon(rest[1..]) == [s[4]];
    assert BeforeColon(rest) == rest;
    TwoDigits(hour / 10, hour % 10);
    TwoDigits(minute / 10, minute % 10);
  }

  /**
    The opening window of a row on a given day, as [start, end) in
    milliseconds; None when either time cannot be read.
   */
  function WindowOf(row: HoursRow, day: CalendarDay): (w: Option<(int, int)>)
    ensures w.Some? <==> ParseClock(row.startTime).Some? && ParseClock(row.endTime).Some?
    ensures w.Some? ==>
      w.value.0 == day.midnight + ParseClock(row.startTime).value * MsPerMinute &&
      w.value.1 == day.midnight + ParseClock(row.endTime).value * MsPerMinute
  {
    match (ParseClock(row.startTime), ParseClock(row.endTime))
    case (Some(a), Some(b)) => Some((day.midnight + a * MsPerMinute, day.midnight + b * MsPerMinute))
    case _ => None
  }

  /**
    Start times visited by a cursor that begins at start and advances by
    step while it is before end.
   */
  function Candidates(start: int, end: int, step: int): (ts: seq<int>)
    requires step > 0
    decreases end - start
  {
    if start < end then [start] + Candidates(start + step, end, step) else []
  }

  /** The k-th candidate lies exactly k steps after the window start. */
  lemma {:induction false} CandidateAt(start: int, end: int, step: int, k: nat)
    requires step > 0
    requires k < |Candidates(start, end, step)|
    ensures Candidates(start, end, step)[k] == start + k * step
    decreases k
  {
    if k > 0 {
      CandidateAt(start + step, end, step, k - 1);
      assert start + step + (k - 1) * step == start + k * step;
    }
  }

  /** Every candidate starts inside the window: start <= t < end. */
  lemma {:induction false} CandidatesInWindow(start: int, end: int, step: int)
    requires step > 0
    ensures forall t :: t in Candidates(start, end, step) ==> start <= t < end
    decreases end - start
  {
    if start < end {
      CandidatesInWindow(start + step, end, step);
    }
  }

  /**
    A window of length L yields n = ceil(L / step) candidates: the n-th step
    reaches or passes the end, one step fewer does not. An empty or inverted
    window yields none.
   */
  lemma {:induction false} CandidateCount(start: int, end: int, step: int)
    requires step > 0
    ensures var n := |Candidates(start, end, step)|;
      (end <= start ==> n == 0) &&
      (start < end ==> (n - 1) * step < end - start <= n * step)
    decreases end - start
  {
    if start < end {
      CandidateCount(start + step, end, step);
      var n := |Candidates(start, end, step)|;
      assert (n - 1) * step + step == n * step;
    }
  }

  /** 09:00-12:00 with a one-hour service: slots at 09:00, 10:00 and 11:00. */
  lemma ThreeHourMorning()
    ensures Candidates(540 * MsPerMinute, 720 * MsPerMinute, 60 * MsPerMinute)
      == [540 * MsPerMinute, 600 * MsPerMinute, 660 * MsPerMinute]
  {
    assert Candidates(720 * MsPerMinute, 720 * MsPerMinute, 60 * MsPerMinute) == [];
    assert Candidates(660 * MsPerMinute, 720 * MsPerMinute, 60 * MsPerMinute) == [660 * MsPerMinute];
    assert Candidates(600 * MsPerMinute, 720 * MsPerMinute, 60 * MsPerMinute) == [600 * MsPerMinute, 660 * MsPerMinute];
  }

  /**
    The last slot of a window is not cut at closing time: it ends at or after
    the end of the window. Here 09:00-10:00 with a 45-minute service gives
    slots at 09:00 and 09:45, the second ending at 10:30.
   */
  lemma LastSlotMayRunPastClosing()
    ensures Candidates(540 * MsPerMinute, 600 * MsPerMinute, 45 * MsPerMinute)
      == [540 * MsPerMinute, 585 * MsPerMinute]
    ensures 585 * MsPerMinute + 45 * MsPerMinute > 600 * MsPerMinute
  {
    assert Candidates(630 * MsPerMinute, 600 * MsPerMinute, 45 * MsPerMinute) == [];
    assert Candidates(585 * MsPerMinute, 600 * MsPerMinute, 45 * MsPerMinute) == [585 * MsPerMinute];
  }
}
