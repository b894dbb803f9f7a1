/**
 * The start/end time pickers of components/TaskTime.tsx: two string fields
 * whose change handlers keep `end` from falling below `start` in JavaScript's
 * string order.
 */
module TaskTime {
  import opened Wrappers
  import opened StringOrder
  import opened TimeUtils

  /** The component's two `useState` fields. */
  datatype TimeState = TimeState(start: string, end: string)

  /** Both fields start out empty. */
  const Initial: TimeState := TimeState("", "")

  /** The invariant the handlers keep: `end` is unset, or `end >= start`. */
  predicate Ordered(st: TimeState) {
    st.end == "" || AtLeast(st.end, st.start)
  }

  /**
   * The mount effect sets both fields to the current time `now` (as
   * `toLocaleTimeString` formats it; the formatting is not modelled).
   */
  function Mount(now: string): (st: TimeState)
    ensures st.start == st.end == now
    ensures Ordered(st)
  {
    LessIrreflexive(now);
    TimeState(now, now)
  }

  /**
   * `handleStartChange`: `start` takes the new value; a set `end` below it is
   * pulled up to it, any other `end` stays.
   */
  function HandleStartChange(st: TimeState, newStart: string): (r: TimeState)
    ensures r.start == newStart
    ensures st.end == "" ==> r.end == ""
    ensures r.end != st.end <==> st.end != "" && Less(st.end, newStart)
    ensures r.end == st.end || r.end == newStart
    ensures Ordered(r)
  {
    LessIrreflexive(newStart);
    if st.end != "" && Less(st.end, newStart) then TimeState(newStart, newStart)
    else TimeState(newStart, st.end)
  }

  /**
   * `handleEndChange`: `start` is untouched; `end` takes the new value when it
   * is at least `start`, and `start` otherwise.
   */
  function HandleEndChange(st: TimeState, newEnd: string): (r: TimeState)
    ensures r.start == st.start
    ensures r.end == newEnd <==> AtLeast(newEnd, st.start)
    ensures !AtLeast(newEnd, st.start) ==> r.end == st.start
    ensures AtLeast(r.end, r.start)
  {
    LessIrreflexive(st.start);
    if AtLeast(newEnd, st.start) then TimeState(st.start, newEnd)
    else TimeState(st.start, st.start)
  }

  /** An input event of either picker. */
  datatype Event = StartChanged(value: string) | EndChanged(value: string)

  /** Handles one event. */
  function Step(st: TimeState, e: Event): TimeState {
    match e
    case StartChanged(v) => HandleStartChange(st, v)
    case EndChanged(v) => HandleEndChange(st, v)
  }

  /** Handles a sequence of events in order, each seeing the state the previous one left. */
  function Run(st: TimeState, events: seq<Event>): TimeState
    decreases |events|
  {
    if |events| == 0 then st else Run(Step(st, events[0]), events[1..])
  }

  /** From the initial state or after mounting, every sequence of edits keeps `end >= start` or `end` unset. */
  lemma {:induction false} RunKeepsOrdered(st: TimeState, events: seq<Event>)
    requires Ordered(st)
    ensures Ordered(Run(st, events))
    decreases |events|
  {
    if |events| > 0 {
      var next := Step(st, events[0]);
      assert Ordered(next);
      RunKeepsOrdered(next, events[1..]);
    }
  }

  /** The initial state is ordered, so no sequence of edits can leave `end` below `start`. */
  lemma EditsFromInitialAreOrdered(events: seq<Event>)
    ensures Initial.start == "" && Initial.end == ""
    ensures Ordered(Run(Initial, events))
  {
    RunKeepsOrdered(Initial, events);
  }

  /**
   * Once `start` is set, `end` can no longer be cleared: an empty new end is
   * below every non-empty start and is replaced by it.
   */
  lemma EndCannotBeCleared(st: TimeState)
    requires st.start != ""
    ensures HandleEndChange(st, "").end == st.start
  {
  }

  // ---------------------------------------------------------------------------
  // The string clamp against the clock
  // ---------------------------------------------------------------------------

  /** A time of day, as a time input with `step="1"` lets the user pick it. */
  datatype Clock = Clock(hours: nat, minutes: nat, seconds: nat)

  predicate ValidClock(c: Clock) {
    c.hours < 24 && c.minutes < 60 && c.seconds < 60
  }

  /** Seconds since midnight: the reference order on clocks. */
  function Seconds(c: Clock): nat {
    c.hours * 3600 + c.minutes * 60 + c.seconds
  }

  /** A number below 100 written with exactly two digits. */
  function Pad2(n: nat): (p: string)
    requires n < 100
    ensures |p| == 2 && IsDigits(p) && DigitsValue(p) == n
  {
    var p := [('0' as int + n / 10) as char, ('0' as int + n % 10) as char];
    TwoDigitValue(p);
    p
  }

  /** The `HH:MM:SS` value the time input produces for `c`. */
  function FormatClock(c: Clock): (t: string)
    requires ValidClock(c)
    ensures |t| == 8 && t[2] == ':' && t[5] == ':'
  {
    Pad2(c.hours) + ":" + Pad2(c.minutes) + ":" + Pad2(c.seconds)
  }

  /** A two-digit field's value, digit by digit. */
  lemma TwoDigitValue(x: string)
    requires |x| == 2 && IsDigits(x)
    ensures DigitsValue(x) == (x[0] as int - '0' as int) * 10 + (x[1] as int - '0' as int)
  {
    var p := x[..1];
    assert p[..0] == [] && p[0] == x[0] && x[..|x| - 1] == p;
    assert DigitsValue(p) == DigitsValue(p[..0]) * 10 + (p[0] as int - '0' as int);
  }

  /** `parseTimeToSeconds` reads a formatted clock back as its seconds since midnight. */
  lemma ParseFormatClock(c: Clock)
    requires ValidClock(c)
    ensures ParseTimeToSeconds(Some(FormatClock(c))) == Some(Seconds(c))
  {
    ParseClock(Pad2(c.hours), Pad2(c.minutes), Pad2(c.seconds));
  }

  /** Behind a common-length head, the comparison is decided by the heads, or by the tails if the heads agree. */
  lemma {:induction false} LessConcat(x: string, y: string, r1: string, r2: string)
    requires |x| == |y|
    ensures Less(x + r1, y + r2) == if x == y then Less(r1, r2) else Less(x, y)
    decreases |x|
  {
    if |x| == 0 {
      assert x + r1 == r1 && y + r2 == r2;
    } else {
      assert (x + r1)[0] == x[0] && (y + r2)[0] == y[0];
      assert (x + r1)[1..] == x[1..] + r1 && (y + r2)[1..] == y[1..] + r2;
      LessConcat(x[1..], y[1..], r1, r2);
      if x[0] == y[0] {
        assert x == [x[0]] + x[1..] && y == [y[0]] + y[1..];
      }
    }
  }

  /** `hh:mm:ss` compares field by field. */
  lemma ClockLess(h1: string, m1: string, s1: string, h2: string, m2: string, s2: string)
    requires |h1| == |h2| && |m1| == |m2|
    ensures Less(h1 + ":" + m1 + ":" + s1, h2 + ":" + m2 + ":" + s2) ==
            if h1 != h2 then Less(h1, h2) else if m1 != m2 then Less(m1, m2) else Less(s1, s2)
  {
    var c := ":";
    assert h1 + ":" + m1 + ":" + s1 == h1 + (c + (m1 + (c + s1)));
    assert h2 + ":" + m2 + ":" + s2 == h2 + (c + (m2 + (c + s2)));
    LessConcat(h1, h2, c + (m1 + (c + s1)), c + (m2 + (c + s2)));
    LessConcat(c, c, m1 + (c + s1), m2 + (c + s2));
    LessConcat(m1, m2, c + s1, c + s2);
    LessConcat(c, c, s1, s2);
  }

  /** On two-digit fields the string order is the numeric order. */
  lemma Pad2Less(a: nat, b: nat)
    requires a < 100 && b < 100
    ensures Less(Pad2(a), Pad2(b)) <==> a < b
    ensures Pad2(a) == Pad2(b) <==> a == b
  {
    var p, q := Pad2(a), Pad2(b);
    assert Less(p, q) == if p[0] != q[0] then p[0] < q[0] else Less(p[1..], q[1..]);
    assert Less(p[1..], q[1..]) == if p[1] != q[1] then p[1] < q[1] else Less(p[1..][1..], q[1..][1..]);
    assert p[1..][1..] == [] && q[1..][1..] == [];
    assert a == 10 * (a / 10) + a % 10 && b == 10 * (b / 10) + b % 10;
  }

  /** Seconds since midnight order the fields lexicographically when minutes and seconds are below 60. */
  lemma SecondsOrder(c1: Clock, c2: Clock)
    requires ValidClock(c1) && ValidClock(c2)
    ensures Seconds(c1) < Seconds(c2) <==>
            || c1.hours < c2.hours
            || (c1.hours == c2.hours && c1.minutes < c2.minutes)
            || (c1.hours == c2.hours && c1.minutes == c2.minutes && c1.seconds < c2.seconds)
  {
  }

  /** The string order of two formatted clocks is their order in time. */
  lemma ClockOrder(c1: Clock, c2: Clock)
    requires ValidClock(c1) && ValidClock(c2)
    ensures Less(FormatClock(c1), FormatClock(c2)) <==> Seconds(c1) < Seconds(c2)
  {
    ClockLess(Pad2(c1.hours), Pad2(c1.minutes), Pad2(c1.seconds), Pad2(c2.hours), Pad2(c2.minutes), Pad2(c2.seconds));
    Pad2Less(c1.hours, c2.hours);
    Pad2Less(c1.minutes, c2.minutes);
    Pad2Less(c1.seconds, c2.seconds);
    SecondsOrder(c1, c2);
  }

  /**
   * On the values a time input produces, the string comparison the handlers
   * use agrees with `parseTimeToSeconds`: an end the clamp accepts is, on the
   * clock, no earlier than the start.
   */
  lemma ClampAgreesWithClock(start: Clock, end: Clock)
    requires ValidClock(start) && ValidClock(end)
    ensures ParseTimeToSeconds(Some(FormatClock(start))).Some?
    ensures ParseTimeToSeconds(Some(FormatClock(end))).Some?
    ensures AtLeast(FormatClock(end), FormatClock(start)) <==>
            ParseTimeToSeconds(Some(FormatClock(end))).value >= ParseTimeToSeconds(Some(FormatClock(start))).value
  {
    ParseFormatClock(start);
    ParseFormatClock(end);
    ClockOrder(end, start);
  }
}
