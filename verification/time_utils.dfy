/**
 * Wall-clock time helpers of the task board (lib/utils.ts): turning an
 * `HH:MM[:SS]` string into seconds since midnight and the strict overlap
 * test of two time windows.
 */
module TimeUtils {
  import opened Wrappers

  // ---------------------------------------------------------------------------
  // `String.prototype.split` on a single-character separator
  // ---------------------------------------------------------------------------

  /** Glues `parts` back together with `sep` between neighbours (the inverse of `Split`). */
  function Join(parts: seq<string>, sep: char): string
    requires |parts| >= 1
    decreases |parts|
  {
    if |parts| == 1 then parts[0] else parts[0] + [sep] + Join(parts[1..], sep)
  }

  /**
   * JavaScript's `s.split(sep)`: the maximal pieces of `s` between occurrences
   * of `sep`. There is always at least one piece (`"".split(":")` is `[""]`).
   */
  function Split(s: string, sep: char): (parts: seq<string>)
    ensures |parts| >= 1
    decreases |s|
  {
    if |s| == 0 then [""]
    else Cons(s[0], Split(s[1..], sep), sep)
  }

  /** Puts character `c` in front of the pieces `rest`: a separator opens a new first piece. */
  function Cons(c: char, rest: seq<string>, sep: char): (parts: seq<string>)
    requires |rest| >= 1
    ensures |parts| >= 1
  {
    if c == sep then [""] + rest else [[c] + rest[0]] + rest[1..]
  }

  /** Joining the pieces gives the original string back. */
  lemma {:induction false} JoinSplit(s: string, sep: char)
    ensures Join(Split(s, sep), sep) == s
    decreases |s|
  {
    if |s| > 0 {
      var rest := Split(s[1..], sep);
      JoinSplit(s[1..], sep);
      if s[0] != sep && |rest| > 1 {
        assert ([[s[0]] + rest[0]] + rest[1..])[1..] == rest[1..];
      }
      assert s == [s[0]] + s[1..];
    }
  }

  /** Splitting a joined list gives the list back, provided no piece holds the separator. */
  lemma {:induction false} SplitJoin(parts: seq<string>, sep: char)
    requires |parts| >= 1
    requires forall i :: 0 <= i < |parts| ==> sep !in parts[i]
    ensures Split(Join(parts, sep), sep) == parts
    decreases |parts|, |parts[0]|
  {
    var s := Join(parts, sep);
    if |parts[0]| == 0 {
      if |parts| > 1 {
        SplitJoin(parts[1..], sep);
        assert s == [sep] + Join(parts[1..], sep);
        assert s[1..] == Join(parts[1..], sep);
        assert parts == [""] + parts[1..];
      }
    } else {
      var c := parts[0][0];
      assert parts[0] == [c] + parts[0][1..];
      var shorter := [parts[0][1..]] + parts[1..];
      assert shorter[1..] == parts[1..];
      assert forall i :: 1 <= i < |shorter| ==> shorter[i] == parts[i];
      SplitJoin(shorter, sep);
      assert s == [c] + Join(shorter, sep) by {
        if |parts| > 1 {
          assert Join(shorter, sep) == parts[0][1..] + [sep] + Join(parts[1..], sep);
        }
      }
      assert s[1..] == Join(shorter, sep);
      assert parts == [[c] + shorter[0]] + shorter[1..];
    }
  }

  /** Splitting at a separator occurrence: the pieces of `a` followed by the pieces of `b`. */
  lemma {:induction false} SplitAppend(a: string, b: string, sep: char)
    ensures Split(a + [sep] + b, sep) == Split(a, sep) + Split(b, sep)
    decreases |a|
  {
    var s := a + [sep] + b;
    if |a| == 0 {
      assert s == [sep] + b;
      assert s[1..] == b;
    } else {
      assert s[0] == a[0];
      assert s[1..] == a[1..] + [sep] + b;
      SplitAppend(a[1..], b, sep);
      var x, y := Split(a[1..], sep), Split(b, sep);
      if a[0] != sep {
        assert (x + y)[1..] == x[1..] + y;
      }
    }
  }

  // ---------------------------------------------------------------------------
  // `Number(value)` restricted to decimal digit strings
  // ---------------------------------------------------------------------------

  predicate IsDigit(c: char) {
    '0' <= c <= '9'
  }

  predicate IsDigits(s: string) {
    forall i :: 0 <= i < |s| ==> IsDigit(s[i])
  }

  /** The decimal value of a digit string, most significant digit first. */
  function DigitsValue(s: string): nat
    requires IsDigits(s)
    decreases |s|
  {
    if |s| == 0 then 0
    else DigitsValue(s[..|s| - 1]) * 10 + (s[|s| - 1] as int - '0' as int)
  }

  /**
   * `Number(value)` for one time component: a digit string denotes its decimal
   * value (`""` denotes 0), and every other string is `NaN`, written `None`.
   */
  function JsNumber(value: string): (n: Option<nat>)
    ensures n.Some? <==> IsDigits(value)
    ensures value == "" ==> n == Some(0)
  {
    if IsDigits(value) then Some(DigitsValue(value)) else None
  }

  /** The canonical decimal spelling of `n` (no leading zeros; `0` is `"0"`). */
  function Digits(n: nat): (s: string)
    ensures |s| >= 1 && IsDigits(s)
    ensures ':' !in s
    decreases n
  {
    if n < 10 then [('0' as int + n) as char]
    else Digits(n / 10) + [('0' as int + n % 10) as char]
  }

  /** `Number` reads back what `Digits` writes. */
  lemma {:induction false} DigitsRoundTrip(n: nat)
    ensures JsNumber(Digits(n)) == Some(n)
    decreases n
  {
    var s := Digits(n);
    if n < 10 {
      assert s[..0] == "";
      assert DigitsValue(s) == n;
    } else {
      DigitsRoundTrip(n / 10);
      assert s[..|s| - 1] == Digits(n / 10);
      assert s[|s| - 1] as int - '0' as int == n % 10;
      assert DigitsValue(s) == (n / 10) * 10 + n % 10;
    }
  }

  // ---------------------------------------------------------------------------
  // parseTimeToSeconds
  // ---------------------------------------------------------------------------

  /**
   * The `i`-th component of the destructuring `[hours = 0, minutes = 0, seconds = 0]`:
   * a missing component takes its default 0; a present one goes through `Number`.
   */
  function Component(parts: seq<string>, i: nat): (n: Option<nat>)
    ensures i >= |parts| ==> n == Some(0)
    ensures i < |parts| ==> (n.Some? <==> IsDigits(parts[i]))
  {
    if i < |parts| then JsNumber(parts[i]) else Some(0)
  }

  /**
   * `parseTimeToSeconds(time)`: absent and empty strings give `null`; otherwise
   * the first three `:`-separated components are hours, minutes and seconds
   * (missing ones 0, further ones ignored), and a non-numeric one gives `null`.
   */
  function ParseTimeToSeconds(time: Option<string>): (r: Option<int>)
    ensures time == None || time == Some("") ==> r == None
    ensures r.Some? <==> time.Some? && time.value != "" && LeadingFieldsNumeric(Split(time.value, ':'))
    ensures r.Some? ==> r.value >= 0
  {
    if time.None? || time.value == "" then None
    else
      var parts := Split(time.value, ':');
      var hours := Component(parts, 0);
      var minutes := Component(parts, 1);
      var seconds := Component(parts, 2);
      if hours.None? || minutes.None? || seconds.None? then None
      else Some(hours.value * 3600 + minutes.value * 60 + seconds.value)
  }

  /** Each of the first three pieces that is present is a digit string. */
  predicate LeadingFieldsNumeric(parts: seq<string>) {
    && (|parts| > 0 ==> IsDigits(parts[0]))
    && (|parts| > 1 ==> IsDigits(parts[1]))
    && (|parts| > 2 ==> IsDigits(parts[2]))
  }

  /** The value `Number` gives the `i`-th piece, or the default 0 when it is missing or `NaN`. */
  function PieceValue(parts: seq<string>, i: nat): nat {
    if i < |parts| then JsNumber(parts[i]).GetOr(0) else 0
  }

  /** Unfolds one successful or failed parse of a non-empty string. */
  lemma ParseBySplit(t: string, parts: seq<string>)
    requires t != "" && Split(t, ':') == parts
    ensures ParseTimeToSeconds(Some(t)) ==
            if LeadingFieldsNumeric(parts)
            then Some(PieceValue(parts, 0) * 3600 + PieceValue(parts, 1) * 60 + PieceValue(parts, 2))
            else None
  {
  }

  /**
   * Joining one or more digit strings with `:` and parsing the result gives
   * `h*3600 + m*60 + s` from the first three pieces, missing ones counting 0
   * and further ones ignored.
   */
  lemma ParseJoinedDigits(parts: seq<string>)
    requires |parts| >= 1 && (parts[0] != "" || |parts| >= 2)
    requires forall i :: 0 <= i < |parts| ==> IsDigits(parts[i])
    ensures ParseTimeToSeconds(Some(Join(parts, ':'))) ==
            Some(PieceValue(parts, 0) * 3600 + PieceValue(parts, 1) * 60 + PieceValue(parts, 2))
  {
    forall i | 0 <= i < |parts| ensures ':' !in parts[i] {
      DigitsHaveNoColon(parts[i]);
    }
    var t := Join(parts, ':');
    SplitJoin(parts, ':');
    JoinLength(parts, ':');
    if parts[0] == "" {
      assert Join(parts, ':')[0] == ':';
    }
    ParseBySplit(t, parts);
  }

  /** A joined string is at least as long as its first piece. */
  lemma {:induction false} JoinLength(parts: seq<string>, sep: char)
    requires |parts| >= 1
    ensures |Join(parts, sep)| >= |parts[0]|
  {
  }

  /** Appending `:extra` to a string of three or more pieces keeps its first three pieces. */
  lemma ExtraKeepsLeadingPieces(time: string, extra: string)
    requires |Split(time, ':')| >= 3
    ensures LeadingFieldsNumeric(Split(time + [':'] + extra, ':')) == LeadingFieldsNumeric(Split(time, ':'))
    ensures PieceValue(Split(time + [':'] + extra, ':'), 0) == PieceValue(Split(time, ':'), 0)
    ensures PieceValue(Split(time + [':'] + extra, ':'), 1) == PieceValue(Split(time, ':'), 1)
    ensures PieceValue(Split(time + [':'] + extra, ':'), 2) == PieceValue(Split(time, ':'), 2)
  {
    SplitAppend(time, extra, ':');
    var p := Split(time, ':');
    var q := Split(time + [':'] + extra, ':');
    assert q == p + Split(extra, ':');
    assert q[0] == p[0] && q[1] == p[1] && q[2] == p[2];
  }

  /** Once there are three components, anything appended after another `:` is ignored. */
  lemma ParseIgnoresExtra(time: string, extra: string)
    requires |Split(time, ':')| >= 3
    ensures ParseTimeToSeconds(Some(time + [':'] + extra)) == ParseTimeToSeconds(Some(time))
  {
    ExtraKeepsLeadingPieces(time, extra);
    assert |time + [':'] + extra| > 0;
    ParseSamePieces(time + [':'] + extra, time);
  }

  /** Two non-empty strings whose first three pieces agree in value parse alike. */
  lemma ParseSamePieces(t1: string, t2: string)
    requires t1 != "" && t2 != ""
    requires LeadingFieldsNumeric(Split(t1, ':')) == LeadingFieldsNumeric(Split(t2, ':'))
    requires forall i :: 0 <= i < 3 ==> PieceValue(Split(t1, ':'), i) == PieceValue(Split(t2, ':'), i)
    ensures ParseTimeToSeconds(Some(t1)) == ParseTimeToSeconds(Some(t2))
  {
    var p, q := Split(t1, ':'), Split(t2, ':');
    assert PieceValue(p, 0) == PieceValue(q, 0);
    assert PieceValue(p, 1) == PieceValue(q, 1);
    assert PieceValue(p, 2) == PieceValue(q, 2);
    ParseBySplit(t1, p);
    ParseBySplit(t2, q);
  }

  /** `"09"` is nine o'clock: 32400 seconds. */
  lemma HourOnly()
    ensures ParseTimeToSeconds(Some("09")) == Some(32400)
  {
    TwoDigitValues();
    ParseJoinedDigits(["09"]);
  }

  /** A digit string holds no `:`. */
  lemma DigitsHaveNoColon(s: string)
    requires IsDigits(s)
    ensures ':' !in s
  {
    assert forall k :: 0 <= k < |s| ==> s[k] != ':';
  }

  /** `h:m:s` spelled out is the join of its three pieces. */
  lemma JoinThree(h: string, m: string, s: string)
    ensures Join([h, m, s], ':') == h + ":" + m + ":" + s
  {
    assert [h, m, s][1..] == [m, s];
    assert [m, s][1..] == [s];
    assert Join([m, s], ':') == m + ":" + s;
  }

  /** `h:m:s` with digit-string pieces splits into exactly those pieces. */
  lemma SplitClock(h: string, m: string, s: string)
    requires IsDigits(h) && IsDigits(m) && IsDigits(s)
    ensures Split(h + ":" + m + ":" + s, ':') == [h, m, s]
  {
    JoinThree(h, m, s);
    DigitsHaveNoColon(h);
    DigitsHaveNoColon(m);
    DigitsHaveNoColon(s);
    SplitJoin([h, m, s], ':');
  }

  /** Three digit-string pieces are numeric and carry their decimal values. */
  lemma ClockPieces(h: string, m: string, s: string)
    requires IsDigits(h) && IsDigits(m) && IsDigits(s)
    ensures LeadingFieldsNumeric([h, m, s])
    ensures PieceValue([h, m, s], 0) == DigitsValue(h)
    ensures PieceValue([h, m, s], 1) == DigitsValue(m)
    ensures PieceValue([h, m, s], 2) == DigitsValue(s)
  {
  }

  /** `h:m:s` with digit-string pieces, zero-padded or not, parses to `h*3600 + m*60 + s`. */
  lemma ParseClock(h: string, m: string, s: string)
    requires IsDigits(h) && IsDigits(m) && IsDigits(s)
    ensures ParseTimeToSeconds(Some(h + ":" + m + ":" + s)) ==
            Some(DigitsValue(h) * 3600 + DigitsValue(m) * 60 + DigitsValue(s))
  {
    SplitClock(h, m, s);
    ParsePieces(h + ":" + m + ":" + s, h, m, s);
  }

  /** A non-empty string that splits into three digit strings parses to their weighted sum. */
  lemma ParsePieces(t: string, h: string, m: string, s: string)
    requires IsDigits(h) && IsDigits(m) && IsDigits(s)
    requires t != "" && Split(t, ':') == [h, m, s]
    ensures ParseTimeToSeconds(Some(t)) ==
            Some(DigitsValue(h) * 3600 + DigitsValue(m) * 60 + DigitsValue(s))
  {
    ClockPieces(h, m, s);
    ParseBySplit(t, [h, m, s]);
  }

  /** The two-digit strings the examples below use. */
  lemma TwoDigitValues()
    ensures DigitsValue("00") == 0 && DigitsValue("09") == 9 && DigitsValue("10") == 10
    ensures DigitsValue("11") == 11 && DigitsValue("30") == 30
  {
    assert "00"[..1] == "0" && "09"[..1] == "0" && "10"[..1] == "1";
    assert "11"[..1] == "1" && "30"[..1] == "3";
    assert "0"[..0] == "" && "1"[..0] == "" && "3"[..0] == "";
  }

  // ---------------------------------------------------------------------------
  // checkTimeOverlap
  // ---------------------------------------------------------------------------

  /**
   * `checkTimeOverlap(startA, endA, startB, endB)`: false as soon as one of the
   * four strings fails to parse; otherwise the strict test
   * `startA < endB && startB < endA` on seconds since midnight.
   */
  function CheckTimeOverlap(startA: Option<string>, endA: Option<string>,
                            startB: Option<string>, endB: Option<string>): (r: bool)
    ensures (|| ParseTimeToSeconds(startA).None? || ParseTimeToSeconds(endA).None?
             || ParseTimeToSeconds(startB).None? || ParseTimeToSeconds(endB).None?) ==> !r
  {
    var sa := ParseTimeToSeconds(startA);
    var ea := ParseTimeToSeconds(endA);
    var sb := ParseTimeToSeconds(startB);
    var eb := ParseTimeToSeconds(endB);
    if sa.None? || ea.None? || sb.None? || eb.None? then false
    else sa.value < eb.value && sb.value < ea.value
  }

  /** Second `t` lies in the half-open window `[start, end)`. */
  predicate InWindow(t: int, start: int, end: int) {
    start <= t < end
  }

  /**
   * Overlap means the two half-open windows share at least one second: both
   * directions, for non-empty windows whose four bounds parse.
   */
  lemma OverlapIffSharedSecond(startA: string, endA: string, startB: string, endB: string)
    requires ParseTimeToSeconds(Some(startA)).Some? && ParseTimeToSeconds(Some(endA)).Some?
    requires ParseTimeToSeconds(Some(startB)).Some? && ParseTimeToSeconds(Some(endB)).Some?
    requires ParseTimeToSeconds(Some(startA)).value < ParseTimeToSeconds(Some(endA)).value
    requires ParseTimeToSeconds(Some(startB)).value < ParseTimeToSeconds(Some(endB)).value
    ensures CheckTimeOverlap(Some(startA), Some(endA), Some(startB), Some(endB)) <==>
            exists t :: InWindow(t, ParseTimeToSeconds(Some(startA)).value, ParseTimeToSeconds(Some(endA)).value) &&
                        InWindow(t, ParseTimeToSeconds(Some(startB)).value, ParseTimeToSeconds(Some(endB)).value)
  {
    var sa := ParseTimeToSeconds(Some(startA)).value;
    var ea := ParseTimeToSeconds(Some(endA)).value;
    var sb := ParseTimeToSeconds(Some(startB)).value;
    var eb := ParseTimeToSeconds(Some(endB)).value;
    if sa < eb && sb < ea {
      var t := if sa < sb then sb else sa;
      assert t < ea && t < eb;
      assert InWindow(t, sa, ea) && InWindow(t, sb, eb);
    }
  }

  /** Swapping the two windows does not change the verdict. */
  lemma OverlapSymmetric(startA: Option<string>, endA: Option<string>,
                         startB: Option<string>, endB: Option<string>)
    ensures CheckTimeOverlap(startA, endA, startB, endB) == CheckTimeOverlap(startB, endB, startA, endA)
  {
  }

  lemma NineOClock()
    ensures ParseTimeToSeconds(Some("09:00:00")) == Some(32400)
  {
    TwoDigitValues();
    var h, z := "09", "00";
    assert "09:00:00" == h + ":" + z + ":" + z;
    ParseClock(h, z, z);
  }

  lemma TenOClock()
    ensures ParseTimeToSeconds(Some("10:00:00")) == Some(36000)
  {
    TwoDigitValues();
    var h, z := "10", "00";
    assert "10:00:00" == h + ":" + z + ":" + z;
    ParseClock(h, z, z);
  }

  lemma HalfPastTen()
    ensures ParseTimeToSeconds(Some("10:30:00")) == Some(37800)
  {
    TwoDigitValues();
    var h, m, z := "10", "30", "00";
    assert "10:30:00" == h + ":" + m + ":" + z;
    ParseClock(h, m, z);
  }

  lemma ElevenOClock()
    ensures ParseTimeToSeconds(Some("11:00:00")) == Some(39600)
  {
    TwoDigitValues();
    var h, z := "11", "00";
    assert "11:00:00" == h + ":" + z + ":" + z;
    ParseClock(h, z, z);
  }

  /** Windows that only touch do not overlap; `09:00:00–10:30:00` and `10:00:00–11:00:00` do. */
  lemma TouchingWindows()
    ensures !CheckTimeOverlap(Some("09:00:00"), Some("10:00:00"), Some("10:00:00"), Some("11:00:00"))
    ensures CheckTimeOverlap(Some("09:00:00"), Some("10:30:00"), Some("10:00:00"), Some("11:00:00"))
  {
    HalfPastTen();
    NineOClock();
    TenOClock();
    ElevenOClock();
  }

  /**
   * The test does not look at whether a window is empty: a zero-length window
   * `10:00:00–10:00:00` is reported as overlapping `09:00:00–11:00:00` although
   * the two share no second.
   */
  lemma EmptyWindowOverlaps()
    ensures CheckTimeOverlap(Some("10:00:00"), Some("10:00:00"), Some("09:00:00"), Some("11:00:00"))
    ensures !exists t :: InWindow(t, 36000, 36000) && InWindow(t, 32400, 39600)
  {
    NineOClock();
    TenOClock();
    ElevenOClock();
  }
}
