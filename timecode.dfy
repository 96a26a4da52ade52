/**
 * The timecode helpers of the editor panel: a module-level frame rate with a
 * setter and a getter, parsing `HH:MM:SS:FF` into a frame count, formatting a
 * frame count with `%02d` fields, and the SMPTE timecode validator.  The frame
 * rate is a positive whole number here, and the pure helpers take it as a
 * parameter (the value the setting holds when they are called).
 */
module Timecode {
  import opened Wrappers

  /** The module-level `framerate` variable. */
  class FramerateSetting {
    var framerate: int

    ghost predicate Valid()
      reads this
    {
      framerate > 0
    }

    constructor (rate: int)
      requires rate > 0
      ensures Valid() && framerate == rate
    {
      framerate := rate;
    }

    /** `timecode_set_framerate`: overwrite the rate and nothing else. */
    method SetFramerate(rate: int)
      requires rate > 0
      modifies this`framerate
      ensures Valid() && framerate == rate
    {
      framerate := rate;
    }

    /** `timecode_get_framerate`: the rate last stored. */
    method GetFramerate() returns (rate: int)
      requires Valid()
      ensures rate == framerate && rate > 0
    {
      rate := framerate;
    }
  }

  // ---------------------------------------------------------------------------
  // Strings: `split(':')`, its inverse, and `Number` on decimal digit strings

  /** `s.split(':')`: the pieces between colons, at least one (possibly empty). */
  function Split(s: string): (parts: seq<string>)
    ensures |parts| >= 1
    ensures forall i :: 0 <= i < |parts| ==> ':' !in parts[i]
  {
    if s == [] then [""]
    else
      var rest := Split(s[1..]);
      if s[0] == ':' then [""] + rest
      else [[s[0]] + rest[0]] + rest[1..]
  }

  /** The pieces joined with `':'` between them: the inverse of `Split`. */
  function Join(parts: seq<string>): string
    requires |parts| >= 1
  {
    if |parts| == 1 then parts[0] else parts[0] + ":" + Join(parts[1..])
  }

  predicate IsDigit(c: char) {
    '0' <= c <= '9'
  }

  predicate AllDigits(s: string) {
    forall i :: 0 <= i < |s| ==> IsDigit(s[i])
  }

  /** The value of a string of decimal digits, most significant first; 0 for the empty string. */
  function DigitsValue(s: string): nat
    requires AllDigits(s)
  {
    if s == [] then 0 else DigitsValue(s[..|s| - 1]) * 10 + (s[|s| - 1] as int - '0' as int)
  }

  /**
   * `Number(s)` on the strings this model reads: the empty string is 0, a string
   * of decimal digits is its value, and anything else is NaN (`None`).
   */
  function ParseNumber(s: string): (r: Option<int>)
    ensures r.Some? <==> AllDigits(s)
    ensures r.Some? ==> r.value >= 0
    ensures s == "" ==> r == Some(0)
  {
    if AllDigits(s) then Some(DigitsValue(s)) else None
  }

  // ---------------------------------------------------------------------------
  // timecode_to_frames

  /**
   * `timecode_to_frames`: `(H*3600 + M*60 + S) * framerate + F` of the first four
   * colon-separated fields; NaN (`None`) when a field is missing or not a number.
   */
  function TimecodeToFrames(framerate: int, timecode: string): (r: Option<int>)
    ensures r.Some? <==>
              |Split(timecode)| >= 4 &&
              forall i :: 0 <= i < 4 ==> AllDigits(Split(timecode)[i])
    ensures r.Some? ==>
              var a := Split(timecode);
              r.value == (ParseNumber(a[0]).value * 3600 + ParseNumber(a[1]).value * 60 +
                          ParseNumber(a[2]).value) * framerate + ParseNumber(a[3]).value
  {
    var a := Split(timecode);
    if |a| < 4 then None
    else
      match (ParseNumber(a[0]), ParseNumber(a[1]), ParseNumber(a[2]), ParseNumber(a[3]))
      case (Some(h), Some(m), Some(s), Some(f)) => Some((h * 3600 + m * 60 + s) * framerate + f)
      case _ => None
  }

  // ---------------------------------------------------------------------------
  // frames_to_timecode

  /** The four integers `frames_to_timecode` hands to `printf`. */
  datatype TimecodeFields = TimecodeFields(hours: int, minutes: int, seconds: int, frames: int)

  /** Truncation towards zero. */
  function Truncate(x: real): int {
    if x >= 0.0 then x.Floor else -((-x).Floor)
  }

  /** JavaScript's `%` on numbers: the remainder takes the sign of the dividend. */
  function JsRemainder(x: real, y: real): real
    requires y != 0.0
  {
    x - y * Truncate(x / y) as real
  }

  /**
   * The four fields of `frames_to_timecode`, each as the source computes it, with
   * `Math.floor` as `.Floor`.  The last field, `frames % framerate`, is a whole
   * number already, so its `.Floor` only changes the type.
   */
  function TimecodeFieldsOf(framerate: int, frames: int): (tc: TimecodeFields)
    requires framerate > 0
    ensures tc.hours == frames / (3600 * framerate)
  {
    var n := frames as real;
    FloorOfQuotient(frames, 3600 * framerate);
    TimecodeFields(
      (n / (3600 * framerate) as real).Floor,
      JsRemainder(n / (60 * framerate) as real, 60.0).Floor,
      JsRemainder(n / framerate as real, 60.0).Floor,
      JsRemainder(n, framerate as real).Floor)
  }

  /** The decimal digit for `d`. */
  function DigitChar(d: int): char
    requires 0 <= d < 10
  {
    ('0' as int + d) as char
  }

  /** The decimal digits of `n`, without leading zeros. */
  function NatToDigits(n: nat): (s: string)
    ensures |s| >= 1 && AllDigits(s)
    ensures n < 10 <==> |s| == 1
  {
    if n < 10 then [DigitChar(n)] else NatToDigits(n / 10) + [DigitChar(n % 10)]
  }

  /** One `%02d` conversion: the decimal form, zero-padded to at least two characters. */
  function Pad2(n: int): (s: string)
    ensures n >= 0 ==> AllDigits(s) && |s| >= 2
    ensures n < 0 ==> |s| >= 2 && s[0] == '-' && AllDigits(s[1..])
  {
    if n < 0 then "-" + NatToDigits(-n)
    else if n < 10 then "0" + NatToDigits(n)
    else NatToDigits(n)
  }

  /** `frames_to_timecode`: the four fields, each `%02d`, with colons between them. */
  function FramesToTimecode(framerate: int, frames: int): (s: string)
    requires framerate > 0
    ensures var tc := TimecodeFieldsOf(framerate, frames);
      Split(s) == [Pad2(tc.hours), Pad2(tc.minutes), Pad2(tc.seconds), Pad2(tc.frames)]
  {
    var tc := TimecodeFieldsOf(framerate, frames);
    var p := [Pad2(tc.hours), Pad2(tc.minutes), Pad2(tc.seconds), Pad2(tc.frames)];
    Pad2ColonFree(tc.hours);
    Pad2ColonFree(tc.minutes);
    Pad2ColonFree(tc.seconds);
    Pad2ColonFree(tc.frames);
    SplitJoin(p);
    Join(p)
  }

  // ---------------------------------------------------------------------------
  // isValidSMPTETimeCode

  predicate InRange(c: char, lo: char, hi: char) {
    lo <= c <= hi
  }

  /**
   * `isValidSMPTETimeCode`, an anchored regular expression: exactly eleven
   * characters, colons at positions 2, 5 and 8; the hours either a 0 or 1
   * followed by any digit, or a digit 0 to 2 followed by a digit 0 to 3; the
   * minutes and the seconds a digit 0 to 5 followed by any digit; the frames a
   * digit 0 to 2 followed by any digit.
   */
  predicate IsValidSmpteTimecode(s: string)
    ensures IsValidSmpteTimecode(s) ==>
              forall i :: 0 <= i < |s| ==> (s[i] == ':' <==> i % 3 == 2) && (i % 3 != 2 ==> IsDigit(s[i]))
  {
    |s| == 11 &&
    ((InRange(s[0], '0', '1') && IsDigit(s[1])) || (InRange(s[0], '0', '2') && InRange(s[1], '0', '3'))) &&
    s[2] == ':' &&
    InRange(s[3], '0', '5') && IsDigit(s[4]) && s[5] == ':' &&
    InRange(s[6], '0', '5') && IsDigit(s[7]) && s[8] == ':' &&
    InRange(s[9], '0', '2') && IsDigit(s[10])
  }

  // ---------------------------------------------------------------------------
  // Lemmas: splitting and joining

  /** A colon-free prefix joins the first piece. */
  lemma {:induction false} SplitColonFreePrefix(p: string, t: string)
    requires ':' !in p
    ensures Split(p + t) == [p + Split(t)[0]] + Split(t)[1..]
  {
    if p != [] {
      assert (p + t)[1..] == p[1..] + t;
      SplitColonFreePrefix(p[1..], t);
      assert [p[0]] + (p[1..] + Split(t)[0]) == p + Split(t)[0];
    } else {
      assert p + t == t;
      assert p + Split(t)[0] == Split(t)[0];
      assert [Split(t)[0]] + Split(t)[1..] == Split(t);
    }
  }

  /** Splitting colon-free pieces joined with colons gives back the pieces. */
  lemma {:induction false} SplitJoin(parts: seq<string>)
    requires |parts| >= 1
    requires forall i :: 0 <= i < |parts| ==> ':' !in parts[i]
    ensures Split(Join(parts)) == parts
  {
    if |parts| == 1 {
      SplitColonFreePrefix(parts[0], "");
      assert parts[0] + "" == parts[0];
    } else {
      SplitJoin(parts[1..]);
      var tail := ":" + Join(parts[1..]);
      assert tail[1..] == Join(parts[1..]);
      assert Split(tail) == [""] + parts[1..];
      SplitColonFreePrefix(parts[0], tail);
      assert parts[0] + "" == parts[0];
      assert Join(parts) == parts[0] + tail;
    }
  }

  /** Joining the pieces of a split gives back the string. */
  lemma {:induction false} JoinSplit(s: string)
    ensures Join(Split(s)) == s
  {
    if s != [] {
      var rest := Split(s[1..]);
      JoinSplit(s[1..]);
      if s[0] == ':' {
        assert Split(s) == [""] + rest;
        assert ([""] + rest)[1..] == rest;
      } else {
        var parts := [[s[0]] + rest[0]] + rest[1..];
        assert Split(s) == parts;
        if |rest| == 1 {
          assert Join(parts) == [s[0]] + rest[0];
        } else {
          assert parts[1..] == rest[1..];
          assert Join(parts) == ([s[0]] + rest[0]) + ":" + Join(rest[1..]);
          assert Join(rest) == rest[0] + ":" + Join(rest[1..]);
        }
        assert s == [s[0]] + s[1..];
      }
    }
  }

  lemma JoinFour(p: seq<string>)
    requires |p| == 4
    ensures Join(p) == p[0] + ":" + p[1] + ":" + p[2] + ":" + p[3]
  {
    assert p[1..][1..] == p[2..];
    assert p[2..][1..] == p[3..];
    assert Join(p[3..]) == p[3];
    assert Join(p[2..]) == p[2] + ":" + p[3];
    assert Join(p[1..]) == p[1] + ":" + (p[2] + ":" + p[3]);
  }

  lemma DigitsAreColonFree(s: string)
    requires AllDigits(s)
    ensures ':' !in s
  {
  }

  /** A `%02d` conversion never holds a colon. */
  lemma Pad2ColonFree(n: int)
    ensures ':' !in Pad2(n)
  {
    var d := NatToDigits(if n < 0 then -n else n);
    DigitsAreColonFree(d);
    DigitsAreColonFree("0");
    assert Pad2(n) == "-" + d || Pad2(n) == "0" + d || Pad2(n) == d;
  }

  lemma SplitFour(h: string, m: string, s: string, f: string)
    requires AllDigits(h) && AllDigits(m) && AllDigits(s) && AllDigits(f)
    ensures Split(Join([h, m, s, f])) == [h, m, s, f]
  {
    DigitsAreColonFree(h);
    DigitsAreColonFree(m);
    DigitsAreColonFree(s);
    DigitsAreColonFree(f);
    SplitJoin([h, m, s, f]);
  }

  // ---------------------------------------------------------------------------
  // Lemmas: timecode_to_frames

  /**
   * Four decimal fields `HH:MM:SS:FF`, read as the numbers H, M, S and F, give
   * `(H*3600 + M*60 + S) * framerate + F`.
   */
  lemma TimecodeToFramesOfFields(framerate: int, h: string, m: string, s: string, f: string,
                                 hh: int, mm: int, ss: int, ff: int)
    requires ParseNumber(h) == Some(hh) && ParseNumber(m) == Some(mm)
    requires ParseNumber(s) == Some(ss) && ParseNumber(f) == Some(ff)
    ensures TimecodeToFrames(framerate, Join([h, m, s, f])) == Some((hh * 3600 + mm * 60 + ss) * framerate + ff)
  {
    var timecode := Join([h, m, s, f]);
    SplitFour(h, m, s, f);
    assert Split(timecode)[0] == h && Split(timecode)[1] == m;
    assert Split(timecode)[2] == s && Split(timecode)[3] == f;
  }

  // ---------------------------------------------------------------------------
  // Lemmas: decimal digits

  lemma {:induction false} DigitsValueOfNat(n: nat)
    ensures DigitsValue(NatToDigits(n)) == n
  {
    if n >= 10 {
      DigitsValueOfNat(n / 10);
      var s := NatToDigits(n);
      assert s[..|s| - 1] == NatToDigits(n / 10);
    }
  }

  lemma {:induction false} LeadingZero(s: string)
    requires AllDigits(s)
    ensures AllDigits("0" + s) && DigitsValue("0" + s) == DigitsValue(s)
  {
    if s != [] {
      var z := "0" + s;
      assert z[..|z| - 1] == "0" + s[..|s| - 1];
      LeadingZero(s[..|s| - 1]);
    }
  }

  /** `%02d` of a non-negative number reads back as that number. */
  lemma ParsePad2(n: int)
    requires n >= 0
    ensures AllDigits(Pad2(n)) && DigitsValue(Pad2(n)) == n && ParseNumber(Pad2(n)) == Some(n)
    ensures n < 100 ==> |Pad2(n)| == 2
  {
    DigitsValueOfNat(n);
    if n < 10 {
      LeadingZero(NatToDigits(n));
    } else if n < 100 {
      assert NatToDigits(n / 10) == [DigitChar(n / 10)];
    }
  }

  // ---------------------------------------------------------------------------
  // Lemmas: the fields of frames_to_timecode

  lemma FloorOfQuotient(n: int, d: int)
    requires d > 0
    ensures (n as real / d as real).Floor == n / d
  {
    var q, r := n / d, n % d;
    assert n as real == q as real * d as real + r as real;
    assert n as real / d as real == q as real + r as real / d as real;
    assert 0.0 <= r as real / d as real < 1.0;
  }

  lemma JsRemainderOfNonNegative(x: real, y: real)
    requires x >= 0.0 && y > 0.0
    ensures JsRemainder(x, y) == x - y * (x / y).Floor as real
    ensures 0.0 <= JsRemainder(x, y) < y
  {
    var q := x / y;
    assert q * y == x;
    assert q >= 0.0;
    var k := q.Floor as real;
    assert Truncate(q) as real == k;
    assert k <= q < k + 1.0;
    MultiplyBounds(k, q, k + 1.0, y);
    var hi := (k + 1.0) * y;
    assert x < hi;
    assert hi == k * y + y;
    assert JsRemainder(x, y) == x - y * k;
  }

  /** For a non-positive dividend the remainder is non-positive: it takes the sign of the dividend. */
  lemma JsRemainderOfNonPositive(x: real, y: real)
    requires x <= 0.0 && y > 0.0
    ensures -y < JsRemainder(x, y) <= 0.0
  {
    var q := x / y;
    assert q * y == x;
    var t := Truncate(q) as real;
    assert q <= t < q + 1.0;
    MultiplyBounds(0.0, t - q, 1.0, y);
    assert JsRemainder(x, y) == -((t - q) * y);
  }

  lemma MultiplyBounds(lo: real, q: real, hi: real, y: real)
    requires lo <= q < hi && y > 0.0
    ensures lo * y <= q * y < hi * y
  {
  }

  lemma FloorShift(x: real, k: int)
    ensures (x - k as real).Floor == x.Floor - k
  {
  }

  lemma QuotientBy60(n: int, d: int)
    requires d > 0
    ensures (n as real / d as real) / 60.0 == n as real / (60 * d) as real
  {
  }

  /** `Math.floor(JsRemainder(n/d, 60))` for `n >= 0` and `d > 0`, in whole divisions. */
  lemma SixtiethRemainder(n: int, d: int)
    requires n >= 0 && d > 0
    ensures JsRemainder(n as real / d as real, 60.0).Floor == n / d - 60 * (n / (60 * d))
    ensures 0 <= JsRemainder(n as real / d as real, 60.0).Floor < 60
  {
    var x := n as real / d as real;
    JsRemainderOfNonNegative(x, 60.0);
    QuotientBy60(n, d);
    FloorOfQuotient(n, 60 * d);
    FloorOfQuotient(n, d);
    FloorShift(x, 60 * (n / (60 * d)));
  }

  lemma MinutesField(framerate: int, frames: int)
    requires framerate > 0 && frames >= 0
    ensures TimecodeFieldsOf(framerate, frames).minutes ==
              frames / (60 * framerate) - 60 * (frames / (3600 * framerate))
    ensures 0 <= TimecodeFieldsOf(framerate, frames).minutes < 60
  {
    SixtiethRemainder(frames, 60 * framerate);
    assert 60 * (60 * framerate) == 3600 * framerate;
  }

  lemma SecondsField(framerate: int, frames: int)
    requires framerate > 0 && frames >= 0
    ensures TimecodeFieldsOf(framerate, frames).seconds == frames / framerate - 60 * (frames / (60 * framerate))
    ensures 0 <= TimecodeFieldsOf(framerate, frames).seconds < 60
  {
    SixtiethRemainder(frames, framerate);
  }

  lemma FramesField(framerate: int, frames: int)
    requires framerate > 0 && frames >= 0
    ensures TimecodeFieldsOf(framerate, frames).frames == frames % framerate
  {
    var n := frames as real;
    JsRemainderOfNonNegative(n, framerate as real);
    FloorOfQuotient(frames, framerate);
    var rem := n - framerate as real * (frames / framerate) as real;
    assert rem == (frames - framerate * (frames / framerate)) as real;
  }

  /** The ranges of the four fields for a non-negative frame count. */
  lemma {:induction false} FieldRanges(framerate: int, frames: int)
    requires framerate > 0 && frames >= 0
    ensures var tc := TimecodeFieldsOf(framerate, frames);
      tc.hours == frames / (3600 * framerate) &&
      0 <= tc.minutes < 60 && 0 <= tc.seconds < 60 &&
      tc.frames == frames % framerate && 0 <= tc.frames < framerate
  {
    MinutesField(framerate, frames);
    SecondsField(framerate, frames);
    FramesField(framerate, frames);
  }

  /** The four fields recombine into the frame count. */
  lemma RecombineFields(framerate: int, frames: int)
    requires framerate > 0 && frames >= 0
    ensures var tc := TimecodeFieldsOf(framerate, frames);
      (tc.hours * 3600 + tc.minutes * 60 + tc.seconds) * framerate + tc.frames == frames
  {
    var tc := TimecodeFieldsOf(framerate, frames);
    MinutesField(framerate, frames);
    SecondsField(framerate, frames);
    FramesField(framerate, frames);
    var q, m, h := frames / framerate, frames / (60 * framerate), frames / (3600 * framerate);
    assert tc.hours * 3600 + tc.minutes * 60 + tc.seconds == q;
    assert q * framerate + frames % framerate == frames;
  }

  /** `timecode_to_frames` undoes `frames_to_timecode` for every non-negative frame count. */
  lemma {:induction false} FramesTimecodeRoundTrip(framerate: int, frames: int)
    requires framerate > 0 && frames >= 0
    ensures TimecodeToFrames(framerate, FramesToTimecode(framerate, frames)) == Some(frames)
  {
    var tc := TimecodeFieldsOf(framerate, frames);
    FieldRanges(framerate, frames);
    RecombineFields(framerate, frames);
    ParsePad2(tc.hours);
    ParsePad2(tc.minutes);
    ParsePad2(tc.seconds);
    ParsePad2(tc.frames);
    TimecodeToFramesOfFields(framerate, Pad2(tc.hours), Pad2(tc.minutes), Pad2(tc.seconds), Pad2(tc.frames),
                             tc.hours, tc.minutes, tc.seconds, tc.frames);
  }

  // ---------------------------------------------------------------------------
  // Lemmas: isValidSMPTETimeCode

  predicate TwoDigits(p: string) {
    |p| == 2 && AllDigits(p)
  }

  lemma TwoDigitValue(p: string)
    requires TwoDigits(p)
    ensures DigitsValue(p) == (p[0] as int - '0' as int) * 10 + (p[1] as int - '0' as int)
  {
    var first := p[..1];
    assert first[..0] == [];
    assert DigitsValue(first) == p[0] as int - '0' as int;
    assert p[..|p| - 1] == first;
  }

  lemma ValidTimecodeSplits(s: string)
    requires IsValidSmpteTimecode(s)
    ensures Split(s) == [s[..2], s[3..5], s[6..8], s[9..]]
  {
    var p := [s[..2], s[3..5], s[6..8], s[9..]];
    assert s == s[..2] + ":" + s[3..5] + ":" + s[6..8] + ":" + s[9..];
    JoinFour(p);
    SplitFour(s[..2], s[3..5], s[6..8], s[9..]);
  }

  lemma FieldsJoin(s: string)
    requires |Split(s)| == 4
    requires forall i :: 0 <= i < 4 ==> TwoDigits(Split(s)[i])
    ensures |s| == 11 && s[2] == ':' && s[5] == ':' && s[8] == ':'
    ensures s[..2] == Split(s)[0] && s[3..5] == Split(s)[1] && s[6..8] == Split(s)[2] && s[9..] == Split(s)[3]
  {
    var p := Split(s);
    JoinSplit(s);
    JoinFour(p);
    assert s == p[0] + ":" + p[1] + ":" + p[2] + ":" + p[3];
  }

  /**
   * Four two-digit decimal fields, with the hours at most 23, the minutes and the
   * seconds at most 59 and the frames at most 29.
   */
  predicate ValidFields(p: seq<string>) {
    |p| == 4 && (forall i :: 0 <= i < 4 ==> TwoDigits(p[i])) &&
    DigitsValue(p[0]) <= 23 && DigitsValue(p[1]) <= 59 &&
    DigitsValue(p[2]) <= 59 && DigitsValue(p[3]) <= 29
  }

  /** The validator accepts exactly the strings whose colon-separated fields are `ValidFields`. */
  lemma ValidTimecodeFields(s: string)
    ensures IsValidSmpteTimecode(s) <==> ValidFields(Split(s))
  {
    if IsValidSmpteTimecode(s) {
      ValidTimecodeHasValidFields(s);
    } else if ValidFields(Split(s)) {
      ValidFieldsAreValidTimecode(s);
    }
  }

  lemma ValidTimecodeHasValidFields(s: string)
    requires IsValidSmpteTimecode(s)
    ensures ValidFields(Split(s))
  {
    var p := Split(s);
    ValidTimecodeSplits(s);
    assert forall i :: 0 <= i < 4 ==> TwoDigits(p[i]);
    TwoDigitValue(p[0]);
    TwoDigitValue(p[1]);
    TwoDigitValue(p[2]);
    TwoDigitValue(p[3]);
  }

  lemma ValidFieldsAreValidTimecode(s: string)
    requires ValidFields(Split(s))
    ensures IsValidSmpteTimecode(s)
  {
    var p := Split(s);
    FieldsJoin(s);
    TwoDigitValue(p[0]);
    TwoDigitValue(p[1]);
    TwoDigitValue(p[2]);
    TwoDigitValue(p[3]);
  }

  /** Within a day, at 30 frames per second or fewer, `frames_to_timecode` produces a valid timecode. */
  lemma FormattedTimecodeIsValid(framerate: int, frames: int)
    requires 0 < framerate <= 30
    requires 0 <= frames < 24 * 3600 * framerate
    ensures IsValidSmpteTimecode(FramesToTimecode(framerate, frames))
  {
    var tc := TimecodeFieldsOf(framerate, frames);
    FieldRanges(framerate, frames);
    DivisionBelow(frames, 3600 * framerate, 24);
    PaddedFieldsAreValid(tc.hours, tc.minutes, tc.seconds, tc.frames);
  }

  lemma PaddedFieldsAreValid(h: int, m: int, s: int, f: int)
    requires 0 <= h <= 23 && 0 <= m <= 59 && 0 <= s <= 59 && 0 <= f <= 29
    ensures IsValidSmpteTimecode(Join([Pad2(h), Pad2(m), Pad2(s), Pad2(f)]))
  {
    var p := [Pad2(h), Pad2(m), Pad2(s), Pad2(f)];
    ParsePad2(h);
    ParsePad2(m);
    ParsePad2(s);
    ParsePad2(f);
    SplitFour(p[0], p[1], p[2], p[3]);
    assert forall i :: 0 <= i < 4 ==> TwoDigits(p[i]);
    assert ValidFields(Split(Join(p)));
    ValidFieldsAreValidTimecode(Join(p));
  }

  lemma DivisionBelow(n: int, d: int, k: int)
    requires n >= 0 && d > 0 && n < k * d
    ensures n / d < k
  {
  }

  /** Whole-string matching: semicolons, missing fields and trailing characters are rejected. */
  lemma TimecodeValidatorExamples()
    ensures IsValidSmpteTimecode("23:59:59:29")
    ensures IsValidSmpteTimecode("00:00:00:00")
    ensures !IsValidSmpteTimecode("24:00:00:00")
    ensures !IsValidSmpteTimecode("00:60:00:00")
    ensures !IsValidSmpteTimecode("00:00:00:30")
    ensures !IsValidSmpteTimecode("00:00:00;00")
    ensures !IsValidSmpteTimecode("00:00:00:00 ")
    ensures !IsValidSmpteTimecode("00:00:00")
  {
  }
}
