/**
 * The duration parser used for the token and cookie expiry settings: the designator form
 * `PnYnMnDTnHnMnS` / `PnW` of ISO 8601:2004 section 4.4.3.2, with an optional leading minus
 * sign, days or weeks but not both, 30-day months and 360-day years. The result is a whole
 * number of seconds (the source wraps it in a `timedelta`).
 *
 * The regular expression is modelled in two halves: `Render` spells the text that each
 * combination of groups stands for (the grammar), and `Match` is a hand-written recogniser.
 * `MatchIff` proves that the recogniser accepts exactly the texts the grammar spells, and
 * returns the groups that spell it.
 */
module Duration {
  import opened Wrappers

  const DaysInMonth: int := 30
  const DaysInYear: int := DaysInMonth * 12
  const SecondsInMinute: int := 60
  const SecondsInHour: int := 60 * 60
  const SecondsInDay: int := 24 * SecondsInHour

  /** Both kinds are Python's ValueError: the pattern does not match, or `int()` refuses a group. */
  datatype DurationError = Unmatched | NotAnInteger(text: string)

  /** Groups 4 and 5 of the pattern: a count and its designator, `D` or `W`. */
  datatype DayGroup = DayGroup(count: string, unit: char)

  /** Group 8 of the pattern: whole seconds and an optional fraction after a `.`. */
  datatype SecondsGroup = SecondsGroup(whole: string, fraction: Option<string>)

  /** Groups 6 to 8, present when the text has a `T` part. */
  datatype TimeGroups = TimeGroups(hours: Option<string>, minutes: Option<string>, seconds: Option<SecondsGroup>)

  /** The groups of one match; group 1 (`sign`) always takes part, the others are `None` when absent. */
  datatype Groups = Groups(sign: string, years: Option<string>, months: Option<string>, days: Option<DayGroup>, time: Option<TimeGroups>)

  predicate IsDigit(c: char) {
    '0' <= c <= '9'
  }

  predicate AllDigits(s: string) {
    forall i | 0 <= i < |s| :: IsDigit(s[i])
  }

  /** What `\d+` matches, over ASCII digits. */
  predicate IsNumeral(s: string) {
    |s| > 0 && AllDigits(s)
  }

  predicate OptNumeral(o: Option<string>) {
    o.Some? ==> IsNumeral(o.value)
  }

  /** The text of group 8, as `match.group(8)` returns it. */
  function SecondsText(sg: SecondsGroup): string {
    match sg.fraction
    case None => sg.whole
    case Some(f) => sg.whole + "." + f
  }

  // ---------------------------------------------------------------------------------------
  // The grammar: the text that each combination of groups spells. Each piece takes the text
  // that follows it, so that the pieces compose without reassociating concatenations.

  /** `(?:(\d+)L)?` followed by `rest`. */
  function Designated(o: Option<string>, letter: char, rest: string): string {
    match o
    case None => rest
    case Some(d) => d + [letter] + rest
  }

  /** `(?:(\d+)([DW]))?` followed by `rest`. */
  function DaysThen(o: Option<DayGroup>, rest: string): string {
    match o
    case None => rest
    case Some(dg) => dg.count + [dg.unit] + rest
  }

  /** `(?:(\d+(?:\.\d+)?)S)?` followed by `rest`. */
  function SecondsThen(o: Option<SecondsGroup>, rest: string): string {
    match o
    case None => rest
    case Some(sg) => SecondsText(sg) + ['S'] + rest
  }

  /** The optional `T` part followed by `rest`. */
  function TimeThen(o: Option<TimeGroups>, rest: string): string {
    match o
    case None => rest
    case Some(t) => "T" + Designated(t.hours, 'H', Designated(t.minutes, 'M', SecondsThen(t.seconds, rest)))
  }

  /** Everything after the `P`. */
  function RenderFields(g: Groups): string {
    Designated(g.years, 'Y', Designated(g.months, 'M', DaysThen(g.days, TimeThen(g.time, ""))))
  }

  function Render(g: Groups): (r: string)
    ensures |r| > |g.sign| && r[..|g.sign|] == g.sign && r[|g.sign|] == 'P'
  {
    g.sign + "P" + RenderFields(g)
  }

  predicate WellFormedTime(t: TimeGroups) {
    && OptNumeral(t.hours)
    && OptNumeral(t.minutes)
    && (t.seconds.Some? ==> IsNumeral(t.seconds.value.whole) && OptNumeral(t.seconds.value.fraction))
  }

  /** The lookahead `(?=\d|T\d)` after `P`: a date group, or a `T` part that holds a time group. */
  predicate HasComponent(g: Groups) {
    || g.years.Some?
    || g.months.Some?
    || g.days.Some?
    || (g.time.Some? && (g.time.value.hours.Some? || g.time.value.minutes.Some? || g.time.value.seconds.Some?))
  }

  /** Every present group after `P` holds what its part of the pattern matches. */
  predicate FieldsWellFormed(g: Groups) {
    && OptNumeral(g.years)
    && OptNumeral(g.months)
    && (g.days.Some? ==> IsNumeral(g.days.value.count) && (g.days.value.unit == 'D' || g.days.value.unit == 'W'))
    && (g.time.Some? ==> WellFormedTime(g.time.value))
  }

  /** The group combinations the pattern can produce. */
  predicate WellFormed(g: Groups) {
    (g.sign == "" || g.sign == "-") && FieldsWellFormed(g) && HasComponent(g)
  }

  // ---------------------------------------------------------------------------------------
  // The recogniser. Each optional group of the pattern starts with a run of digits that only
  // its own designator letter can end, so the regular expression's backtracking never has a
  // second choice: matching each group greedily, left to right, finds the only match.

  /** The length of the run of digits at the front of `s`. */
  function DigitRun(s: string): (n: nat)
    ensures n <= |s|
    ensures forall i | 0 <= i < n :: IsDigit(s[i])
    ensures n < |s| ==> !IsDigit(s[n])
  {
    if s == [] || !IsDigit(s[0]) then 0 else 1 + DigitRun(s[1..])
  }

  /** `(?:(\d+)L)?` at the front of `s`: the group and the text after it. */
  function MatchDesignated(s: string, letter: char): (r: (Option<string>, string))
    ensures OptNumeral(r.0)
    ensures Designated(r.0, letter, r.1) == s
  {
    var n := DigitRun(s);
    if 0 < n < |s| && s[n] == letter then
      assert s[..n] + [letter] + s[n + 1..] == s;
      (Some(s[..n]), s[n + 1..])
    else
      (None, s)
  }

  /** `(?:(\d+)([DW]))?` at the front of `s`. */
  function MatchDays(s: string): (r: (Option<DayGroup>, string))
    ensures r.0.Some? ==> IsNumeral(r.0.value.count) && (r.0.value.unit == 'D' || r.0.value.unit == 'W')
    ensures DaysThen(r.0, r.1) == s
  {
    var n := DigitRun(s);
    if 0 < n < |s| && (s[n] == 'D' || s[n] == 'W') then
      assert s[..n] + [s[n]] + s[n + 1..] == s;
      (Some(DayGroup(s[..n], s[n])), s[n + 1..])
    else
      (None, s)
  }

  /** `(?:(\d+(?:\.\d+)?)S)?` at the front of `s`. */
  function MatchSeconds(s: string): (r: (Option<SecondsGroup>, string))
    ensures r.0.Some? ==> IsNumeral(r.0.value.whole) && OptNumeral(r.0.value.fraction)
    ensures SecondsThen(r.0, r.1) == s
  {
    var n := DigitRun(s);
    if n == 0 || n == |s| then
      (None, s)
    else if s[n] == 'S' then
      assert s[..n] + ['S'] + s[n + 1..] == s;
      (Some(SecondsGroup(s[..n], None)), s[n + 1..])
    else if s[n] == '.' then
      // `\.\d+` and the `S` after it read like a designated group ended by `S`
      var f := MatchDesignated(s[n + 1..], 'S');
      if f.0.Some? then
        assert s[..n] + "." + f.0.value + ['S'] + f.1 == s[..n] + "." + s[n + 1..] == s;
        (Some(SecondsGroup(s[..n], f.0)), f.1)
      else
        (None, s)
    else
      (None, s)
  }

  /** `(?:T(?:(\d+)H)?(?:(\d+)M)?(?:(…)S)?)?` at the front of `s`. */
  function MatchTime(s: string): (r: (Option<TimeGroups>, string))
    ensures r.0.Some? ==> WellFormedTime(r.0.value)
    ensures TimeThen(r.0, r.1) == s
  {
    if |s| > 0 && s[0] == 'T' then
      var h := MatchDesignated(s[1..], 'H');
      var m := MatchDesignated(h.1, 'M');
      var sec := MatchSeconds(m.1);
      assert "T" + s[1..] == s;
      (Some(TimeGroups(h.0, m.0, sec.0)), sec.1)
    else
      (None, s)
  }

  /** The lookahead `(?=\d|T\d)`. */
  predicate Lookahead(s: string) {
    (|s| > 0 && IsDigit(s[0])) || (|s| > 1 && s[0] == 'T' && IsDigit(s[1]))
  }

  /** The groups after `P`, matched in turn; the text left over must be empty. */
  function MatchFields(sign: string, s: string): Option<Groups> {
    var y := MatchDesignated(s, 'Y');
    var mo := MatchDesignated(y.1, 'M');
    var d := MatchDays(mo.1);
    var t := MatchTime(d.1);
    if t.1 == [] then Some(Groups(sign, y.0, mo.0, d.0, t.0)) else None
  }

  /** The pattern from `P` to the end, once group 1 has matched `sign`. */
  function MatchFrom(sign: string, s: string): Option<Groups> {
    if |s| == 0 || s[0] != 'P' || !Lookahead(s[1..]) then None else MatchFields(sign, s[1..])
  }

  /** The pattern against the whole of `s`. */
  function MatchBody(s: string): (r: Option<Groups>)
    ensures r.Some? ==> (r.value.sign == "-" <==> |s| > 0 && s[0] == '-')
  {
    if |s| > 0 && s[0] == '-' then MatchFrom("-", s[1..]) else MatchFrom("", s)
  }

  /** `DURATION_REGEX.match(s)`: Python's `$` also matches just before one final newline. */
  function Match(s: string): (r: Option<Groups>)
    ensures r.Some? ==> r.value.sign == "" || r.value.sign == "-"
  {
    if |s| > 0 && s[|s| - 1] == '\n' then MatchBody(s[..|s| - 1]) else MatchBody(s)
  }

  // ---------------------------------------------------------------------------------------
  // Evaluation of the groups.

  /** `_parse_sign`. */
  function ParseSign(value: string): (r: int)
    ensures r == -1 || r == 1
    ensures r == -1 <==> value == "-"
  {
    if value == "-" then -1 else 1
  }

  /** The value of a string of ASCII digits, most significant first. */
  function DecimalValue(d: string): nat
    requires AllDigits(d)
  {
    if d == [] then 0 else 10 * DecimalValue(d[..|d| - 1]) + (d[|d| - 1] as int - '0' as int)
  }

  /**
   * `_parse_int`: an absent or empty group is 0, anything else goes through `int()`. On the
   * texts the pattern captures (digits, and digits with a `.` for group 8) `int()` accepts
   * exactly the strings of digits and raises ValueError otherwise.
   */
  function ParseInt(value: Option<string>): (r: Result<int, DurationError>)
    ensures r.Ok? ==> r.value >= 0
    ensures r.Err? ==> value.Some? && r == Err(NotAnInteger(value.value))
  {
    if value.None? || value.value == "" then Ok(0)
    else if AllDigits(value.value) then Ok(DecimalValue(value.value))
    else Err(NotAnInteger(value.value))
  }

  /** The arithmetic of `parse_duration` before the sign is applied. */
  function Magnitude(g: Groups): (r: Result<int, DurationError>)
    ensures r.Err? ==> r.error.NotAnInteger?
  {
    var years :- ParseInt(g.years);
    var months :- ParseInt(g.months);
    var daysOrWeeks :- ParseInt(if g.days.Some? then Some(g.days.value.count) else None);
    var isWeeks := g.days.Some? && g.days.value.unit == 'W';
    var hours :- ParseInt(if g.time.Some? then g.time.value.hours else None);
    var minutes :- ParseInt(if g.time.Some? then g.time.value.minutes else None);
    var seconds :- ParseInt(if g.time.Some? && g.time.value.seconds.Some? then Some(SecondsText(g.time.value.seconds.value)) else None);
    var totalDays := (if isWeeks then daysOrWeeks * 7 else daysOrWeeks) + months * DaysInMonth + years * DaysInYear;
    Ok(seconds + minutes * SecondsInMinute + hours * SecondsInHour + totalDays * SecondsInDay)
  }

  /** The arithmetic of `parse_duration` once the pattern has matched: `total_seconds *= sign` last. */
  function Evaluate(g: Groups): (r: Result<int, DurationError>)
    ensures r.Err? ==> r.error.NotAnInteger?
  {
    var sign := ParseSign(g.sign);
    var totalSeconds :- Magnitude(g);
    Ok(totalSeconds * sign)
  }

  /** `parse_duration`, in seconds. */
  function ParseDuration(duration: string): (r: Result<int, DurationError>)
    ensures r == Err(Unmatched) <==> Match(duration).None?
  {
    match Match(duration)
    case None => Err(Unmatched)
    case Some(g) => Evaluate(g)
  }

  // ---------------------------------------------------------------------------------------
  // The meaning of a match, stated independently of the code.

  /** What a group contributes: its decimal value, or 0 when it is absent. */
  function Count(o: Option<string>): nat
    requires OptNumeral(o)
  {
    if o.None? then 0 else DecimalValue(o.value)
  }

  /** Group 8 is absent or has no fraction. */
  predicate WholeSeconds(g: Groups) {
    g.time.None? || g.time.value.seconds.None? || g.time.value.seconds.value.fraction.None?
  }

  /** The days a match denotes: D, or 7 per W, plus 30 per month and 360 per year. */
  function TotalDays(g: Groups): nat
    requires WellFormed(g)
  {
    var d := if g.days.None? then 0 else DecimalValue(g.days.value.count);
    (if g.days.Some? && g.days.value.unit == 'W' then 7 * d else d) + 30 * Count(g.months) + 360 * Count(g.years)
  }

  /** The seconds the groups after the sign denote, when the seconds are whole. */
  function UnsignedSeconds(g: Groups): nat
    requires WellFormed(g) && WholeSeconds(g)
  {
    var t := if g.time.None? then TimeGroups(None, None, None) else g.time.value;
    var s := if t.seconds.None? then 0 else DecimalValue(t.seconds.value.whole);
    s + 60 * Count(t.minutes) + 3600 * Count(t.hours) + 86400 * TotalDays(g)
  }

  /** The seconds a match with whole seconds denotes. */
  function TotalSeconds(g: Groups): int
    requires WellFormed(g) && WholeSeconds(g)
  {
    (if g.sign == "-" then -1 else 1) * UnsignedSeconds(g)
  }


  // ---------------------------------------------------------------------------------------
  // The recogniser against the grammar.

  /** A run of digits stops at the letter after it. */
  lemma {:induction false} DigitRunPast(d: string, c: char, rest: string)
    requires IsNumeral(d) && !IsDigit(c)
    ensures DigitRun(d + [c] + rest) == |d|
  {
    var s := d + [c] + rest;
    if |d| == 1 {
      assert s[1..] == [c] + rest;
    } else {
      assert s[1..] == d[1..] + [c] + rest;
      DigitRunPast(d[1..], c, rest);
    }
  }

  /** The character that ends the run of digits at the front of `s`, when the run is not empty. */
  function NextDesignator(s: string): Option<char> {
    var n := DigitRun(s);
    if 0 < n < |s| then Some(s[n]) else None
  }

  lemma NextOfDesignated(o: Option<string>, letter: char, rest: string)
    requires OptNumeral(o) && !IsDigit(letter)
    ensures NextDesignator(Designated(o, letter, rest)) == if o.Some? then Some(letter) else NextDesignator(rest)
  {
    if o.Some? {
      DigitRunPast(o.value, letter, rest);
    }
  }

  lemma NextOfDays(o: Option<DayGroup>, rest: string)
    requires o.Some? ==> IsNumeral(o.value.count) && (o.value.unit == 'D' || o.value.unit == 'W')
    ensures NextDesignator(DaysThen(o, rest)) == if o.Some? then Some(o.value.unit) else NextDesignator(rest)
  {
    if o.Some? {
      DigitRunPast(o.value.count, o.value.unit, rest);
    }
  }

  lemma NextOfSeconds(o: Option<SecondsGroup>, rest: string)
    requires o.Some? ==> IsNumeral(o.value.whole) && OptNumeral(o.value.fraction)
    ensures o.Some? ==> NextDesignator(SecondsThen(o, rest)) in {Some('S'), Some('.')}
    ensures o.None? ==> NextDesignator(SecondsThen(o, rest)) == NextDesignator(rest)
  {
    if o.Some? {
      var sg := o.value;
      if sg.fraction.Some? {
        assert SecondsThen(o, rest) == sg.whole + ['.'] + (sg.fraction.value + ['S'] + rest);
        DigitRunPast(sg.whole, '.', sg.fraction.value + ['S'] + rest);
      } else {
        DigitRunPast(sg.whole, 'S', rest);
      }
    }
  }

  lemma NextOfTime(o: Option<TimeGroups>, rest: string)
    ensures o.Some? ==> NextDesignator(TimeThen(o, rest)) == None
  {
  }

  lemma MatchDesignatedOn(o: Option<string>, letter: char, rest: string)
    requires OptNumeral(o) && !IsDigit(letter)
    requires NextDesignator(rest) != Some(letter)
    ensures MatchDesignated(Designated(o, letter, rest), letter) == (o, rest)
  {
    if o.Some? {
      var d := o.value;
      var s := d + [letter] + rest;
      DigitRunPast(d, letter, rest);
      assert s[..|d|] == d;
      assert s[|d| + 1..] == rest;
    }
  }

  lemma MatchDaysOn(o: Option<DayGroup>, rest: string)
    requires o.Some? ==> IsNumeral(o.value.count) && (o.value.unit == 'D' || o.value.unit == 'W')
    requires NextDesignator(rest) == None
    ensures MatchDays(DaysThen(o, rest)) == (o, rest)
  {
    if o.Some? {
      var d := o.value.count;
      var s := d + [o.value.unit] + rest;
      DigitRunPast(d, o.value.unit, rest);
      assert s[..|d|] == d;
      assert s[|d| + 1..] == rest;
    }
  }

  lemma MatchWholeSecondsOn(whole: string)
    requires IsNumeral(whole)
    ensures MatchSeconds(whole + ['S'] + "") == (Some(SecondsGroup(whole, None)), "")
  {
    var s := whole + ['S'] + "";
    DigitRunPast(whole, 'S', "");
    assert s[..|whole|] == whole;
  }

  lemma MatchFractionSecondsOn(whole: string, f: string)
    requires IsNumeral(whole) && IsNumeral(f)
    ensures MatchSeconds(whole + "." + f + ['S'] + "") == (Some(SecondsGroup(whole, Some(f))), "")
  {
    var s := whole + "." + f + ['S'] + "";
    var n, t := |whole|, f + ['S'] + "";
    assert s == whole + ['.'] + t;
    DigitRunPast(whole, '.', t);
    assert s[n + 1..] == Designated(Some(f), 'S', "");
    MatchDesignatedOn(Some(f), 'S', "");
    assert s[..n] == whole;
  }

  lemma MatchSecondsOn(o: Option<SecondsGroup>)
    requires o.Some? ==> IsNumeral(o.value.whole) && OptNumeral(o.value.fraction)
    ensures MatchSeconds(SecondsThen(o, "")) == (o, "")
  {
    if o.Some? {
      var sg := o.value;
      if sg.fraction.Some? {
        MatchFractionSecondsOn(sg.whole, sg.fraction.value);
      } else {
        MatchWholeSecondsOn(sg.whole);
      }
    }
  }

  lemma MatchTimeOn(o: Option<TimeGroups>)
    requires o.Some? ==> WellFormedTime(o.value)
    ensures MatchTime(TimeThen(o, "")) == (o, "")
  {
    if o.Some? {
      var t := o.value;
      var afterM := SecondsThen(t.seconds, "");
      var afterH := Designated(t.minutes, 'M', afterM);
      assert TimeThen(o, "")[1..] == Designated(t.hours, 'H', afterH);
      NextOfSeconds(t.seconds, "");
      NextOfDesignated(t.minutes, 'M', afterM);
      MatchDesignatedOn(t.hours, 'H', afterH);
      MatchDesignatedOn(t.minutes, 'M', afterM);
      MatchSecondsOn(t.seconds);
    }
  }

  /** The matchers after `P` read back every well-formed combination of groups. */
  lemma MatchFieldsComplete(g: Groups)
    requires FieldsWellFormed(g)
    ensures MatchFields(g.sign, RenderFields(g)) == Some(g)
  {
    var afterD := TimeThen(g.time, "");
    var afterM := DaysThen(g.days, afterD);
    var afterY := Designated(g.months, 'M', afterM);
    NextOfTime(g.time, "");
    NextOfDays(g.days, afterD);
    NextOfDesignated(g.months, 'M', afterM);
    MatchDesignatedOn(g.years, 'Y', afterY);
    MatchDesignatedOn(g.months, 'M', afterM);
    MatchDaysOn(g.days, afterD);
    MatchTimeOn(g.time);
  }

  /** What the matchers after `P` return spells the text they read. */
  lemma MatchFieldsSound(sign: string, s: string)
    requires MatchFields(sign, s).Some?
    ensures MatchFields(sign, s).value.sign == sign
    ensures FieldsWellFormed(MatchFields(sign, s).value)
    ensures RenderFields(MatchFields(sign, s).value) == s
  {
  }

  /** The lookahead holds exactly when some group follows `P`. */
  lemma LookaheadIff(g: Groups)
    requires FieldsWellFormed(g)
    ensures Lookahead(RenderFields(g)) <==> HasComponent(g)
  {
    var afterD := TimeThen(g.time, "");
    if g.time.Some? {
      var t := g.time.value;
      var inner := Designated(t.hours, 'H', Designated(t.minutes, 'M', SecondsThen(t.seconds, "")));
      assert afterD == "T" + inner;
      if t.hours.None? && t.minutes.None? && t.seconds.Some? {
        assert inner == t.seconds.value.whole + (SecondsThen(t.seconds, "")[|t.seconds.value.whole|..]);
      }
    }
  }

  lemma MatchFromComplete(g: Groups)
    requires WellFormed(g)
    ensures MatchFrom(g.sign, "P" + RenderFields(g)) == Some(g)
  {
    assert ("P" + RenderFields(g))[1..] == RenderFields(g);
    LookaheadIff(g);
    MatchFieldsComplete(g);
  }

  lemma MatchFromSound(sign: string, s: string)
    requires MatchFrom(sign, s).Some?
    ensures MatchFrom(sign, s).value.sign == sign
    ensures FieldsWellFormed(MatchFrom(sign, s).value) && HasComponent(MatchFrom(sign, s).value)
    ensures "P" + RenderFields(MatchFrom(sign, s).value) == s
  {
    MatchFieldsSound(sign, s[1..]);
    LookaheadIff(MatchFrom(sign, s).value);
    assert "P" + s[1..] == s;
  }

  lemma MatchBodySound(s: string)
    requires MatchBody(s).Some?
    ensures WellFormed(MatchBody(s).value) && Render(MatchBody(s).value) == s
  {
    if |s| > 0 && s[0] == '-' {
      MatchFromSound("-", s[1..]);
      assert "-" + s[1..] == s;
    } else {
      MatchFromSound("", s);
    }
  }

  lemma MatchBodyComplete(g: Groups)
    requires WellFormed(g)
    ensures MatchBody(Render(g)) == Some(g)
  {
    MatchFromComplete(g);
    if g.sign == "-" {
      assert Render(g)[1..] == "P" + RenderFields(g);
    } else {
      assert Render(g) == "P" + RenderFields(g);
    }
  }

  predicate NoNewline(s: string) {
    forall i | 0 <= i < |s| :: s[i] != '\n'
  }

  lemma NoNewlineAppend(a: string, b: string)
    requires NoNewline(a) && NoNewline(b)
    ensures NoNewline(a + b)
  {
    forall i | 0 <= i < |a + b| ensures (a + b)[i] != '\n' {
      if i >= |a| {
        assert (a + b)[i] == b[i - |a|];
      }
    }
  }

  lemma NoNewlineDesignated(d: string, c: char, rest: string)
    requires AllDigits(d) && c != '\n' && NoNewline(rest)
    ensures NoNewline(d + [c] + rest)
  {
    NoNewlineAppend(d, [c]);
    NoNewlineAppend(d + [c], rest);
  }

  lemma FieldsHaveNoNewline(g: Groups)
    requires FieldsWellFormed(g)
    ensures NoNewline(RenderFields(g))
  {
    var afterD := TimeThen(g.time, "");
    if g.time.Some? {
      var t := g.time.value;
      var afterM := SecondsThen(t.seconds, "");
      if t.seconds.Some? {
        var sg := t.seconds.value;
        if sg.fraction.Some? {
          NoNewlineDesignated(sg.whole, '.', sg.fraction.value);
          NoNewlineAppend(sg.whole + "." + sg.fraction.value, ['S']);
        } else {
          NoNewlineAppend(sg.whole, ['S']);
        }
        NoNewlineAppend(SecondsText(sg) + ['S'], "");
      }
      var afterH := Designated(t.minutes, 'M', afterM);
      if t.minutes.Some? { NoNewlineDesignated(t.minutes.value, 'M', afterM); }
      var inner := Designated(t.hours, 'H', afterH);
      if t.hours.Some? { NoNewlineDesignated(t.hours.value, 'H', afterH); }
      NoNewlineAppend("T", inner);
    }
    var afterM := DaysThen(g.days, afterD);
    if g.days.Some? { NoNewlineDesignated(g.days.value.count, g.days.value.unit, afterD); }
    var afterY := Designated(g.months, 'M', afterM);
    if g.months.Some? { NoNewlineDesignated(g.months.value, 'M', afterM); }
    if g.years.Some? { NoNewlineDesignated(g.years.value, 'Y', afterY); }
  }

  lemma RenderEndsWithoutNewline(g: Groups)
    requires WellFormed(g)
    ensures |Render(g)| > 0 && Render(g)[|Render(g)| - 1] != '\n'
  {
    FieldsHaveNoNewline(g);
    NoNewlineAppend(g.sign + "P", RenderFields(g));
  }

  lemma MatchSound(s: string)
    requires Match(s).Some?
    ensures WellFormed(Match(s).value)
    ensures s == Render(Match(s).value) || s == Render(Match(s).value) + "\n"
  {
    if |s| > 0 && s[|s| - 1] == '\n' {
      MatchBodySound(s[..|s| - 1]);
      assert s == s[..|s| - 1] + "\n";
    } else {
      MatchBodySound(s);
    }
  }

  lemma MatchComplete(g: Groups)
    requires WellFormed(g)
    ensures Match(Render(g)) == Some(g)
    ensures Match(Render(g) + "\n") == Some(g)
  {
    RenderEndsWithoutNewline(g);
    MatchBodyComplete(g);
    var s := Render(g) + "\n";
    assert s[..|s| - 1] == Render(g);
  }

  /**
   * The recogniser is correct: it returns `g` exactly when `g` is a group combination of the
   * pattern and the text spells it, possibly followed by one newline.
   */
  lemma MatchIff(s: string, g: Groups)
    ensures Match(s) == Some(g) <==> WellFormed(g) && (s == Render(g) || s == Render(g) + "\n")
  {
    if Match(s) == Some(g) {
      MatchSound(s);
    }
    if WellFormed(g) && (s == Render(g) || s == Render(g) + "\n") {
      MatchComplete(g);
    }
  }

  // ---------------------------------------------------------------------------------------
  // What `parse_duration` returns.

  /** `parse_duration` raises ValueError for exactly the texts the pattern does not spell. */
  lemma RejectsUnspelled(s: string)
    ensures ParseDuration(s) == Err(Unmatched) <==> forall g :: WellFormed(g) ==> s != Render(g) && s != Render(g) + "\n"
  {
    if Match(s).Some? {
      MatchSound(s);
    } else {
      forall g | WellFormed(g) ensures s != Render(g) && s != Render(g) + "\n" {
        MatchComplete(g);
      }
    }
  }

  lemma ParseIntNumeral(o: Option<string>)
    requires OptNumeral(o)
    ensures ParseInt(o) == Ok(Count(o))
  {
  }

  lemma FractionIsNotAnInteger(sg: SecondsGroup)
    requires IsNumeral(sg.whole) && sg.fraction.Some?
    ensures ParseInt(Some(SecondsText(sg))) == Err(NotAnInteger(SecondsText(sg)))
  {
    assert SecondsText(sg)[|sg.whole|] == '.';
  }

  /**
   * The value of a match: seconds, 60 per minute, 3600 per hour and 86400 per day, the days
   * counting 7 per week, 30 per month and 360 per year, the sign applied to the whole, and an
   * absent group counting 0. A fractional seconds group makes `int()` raise ValueError.
   */
  lemma EvaluateCorrect(g: Groups)
    requires WellFormed(g)
    ensures WholeSeconds(g) ==> Evaluate(g) == Ok(TotalSeconds(g))
    ensures !WholeSeconds(g) ==> Evaluate(g) == Err(NotAnInteger(SecondsText(g.time.value.seconds.value)))
  {
    if WholeSeconds(g) {
      EvaluateWhole(g);
    } else {
      EvaluateFraction(g);
    }
  }

  /** The counts `Magnitude` reads off a well-formed match with whole seconds. */
  lemma MagnitudeWhole(g: Groups)
    requires WellFormed(g) && WholeSeconds(g)
    ensures var t := if g.time.None? then TimeGroups(None, None, None) else g.time.value;
      var s := if t.seconds.None? then 0 else DecimalValue(t.seconds.value.whole);
      var d := if g.days.None? then 0 else DecimalValue(g.days.value.count);
      var totalDays := (if g.days.Some? && g.days.value.unit == 'W' then d * 7 else d) + Count(g.months) * DaysInMonth + Count(g.years) * DaysInYear;
      Magnitude(g) == Ok(s + Count(t.minutes) * SecondsInMinute + Count(t.hours) * SecondsInHour + totalDays * SecondsInDay)
  {
    ParseIntNumeral(g.years);
    ParseIntNumeral(g.months);
    ParseIntNumeral(if g.days.Some? then Some(g.days.value.count) else None);
    var t := if g.time.None? then TimeGroups(None, None, None) else g.time.value;
    ParseIntNumeral(t.hours);
    ParseIntNumeral(t.minutes);
    if t.seconds.Some? {
      ParseIntNumeral(Some(t.seconds.value.whole));
      assert SecondsText(t.seconds.value) == t.seconds.value.whole;
    }
  }

  /** Multiplying by each constant is multiplying by its value. */
  lemma ByConstants(x: int)
    ensures x * DaysInMonth == 30 * x && x * DaysInYear == 360 * x
    ensures x * SecondsInMinute == 60 * x && x * SecondsInHour == 3600 * x && x * SecondsInDay == 86400 * x
  {
  }

  lemma MagnitudeUnsigned(g: Groups)
    requires WellFormed(g) && WholeSeconds(g)
    ensures Magnitude(g) == Ok(UnsignedSeconds(g))
  {
    MagnitudeWhole(g);
    var t := if g.time.None? then TimeGroups(None, None, None) else g.time.value;
    var d := if g.days.None? then 0 else DecimalValue(g.days.value.count);
    var days := (if g.days.Some? && g.days.value.unit == 'W' then d * 7 else d) + Count(g.months) * DaysInMonth + Count(g.years) * DaysInYear;
    ByConstants(Count(g.months));
    ByConstants(Count(g.years));
    ByConstants(Count(t.minutes));
    ByConstants(Count(t.hours));
    ByConstants(days);
    assert days == TotalDays(g);
  }

  /** The sign is applied to the magnitude last. */
  lemma EvaluateOfMagnitude(g: Groups, m: int)
    requires Magnitude(g) == Ok(m)
    ensures Evaluate(g) == Ok(m * ParseSign(g.sign))
  {
  }

  lemma EvaluateWhole(g: Groups)
    requires WellFormed(g) && WholeSeconds(g)
    ensures Evaluate(g) == Ok(TotalSeconds(g))
  {
    MagnitudeUnsigned(g);
    EvaluateOfMagnitude(g, UnsignedSeconds(g));
  }

  lemma EvaluateFraction(g: Groups)
    requires WellFormed(g) && !WholeSeconds(g)
    ensures Evaluate(g) == Err(NotAnInteger(SecondsText(g.time.value.seconds.value)))
  {
    ParseIntNumeral(g.years);
    ParseIntNumeral(g.months);
    ParseIntNumeral(if g.days.Some? then Some(g.days.value.count) else None);
    ParseIntNumeral(g.time.value.hours);
    ParseIntNumeral(g.time.value.minutes);
    FractionIsNotAnInteger(g.time.value.seconds.value);
  }

  /** `parse_duration` on every text the pattern spells. */
  lemma ParseDurationCorrect(g: Groups)
    requires WellFormed(g)
    ensures WholeSeconds(g) ==> ParseDuration(Render(g)) == Ok(TotalSeconds(g)) == ParseDuration(Render(g) + "\n")
    ensures !WholeSeconds(g) ==>
      ParseDuration(Render(g)) == Err(NotAnInteger(SecondsText(g.time.value.seconds.value))) == ParseDuration(Render(g) + "\n")
  {
    MatchComplete(g);
    EvaluateCorrect(g);
  }

  function Negated(r: Result<int, DurationError>): Result<int, DurationError> {
    match r
    case Ok(v) => Ok(-v)
    case Err(e) => Err(e)
  }

  lemma MatchBodyNegative(y: string)
    requires y == [] || y[0] != '-'
    ensures MatchBody("-" + y) == if MatchBody(y).Some? then Some(MatchBody(y).value.(sign := "-")) else None
  {
    assert ("-" + y)[1..] == y;
  }

  lemma EvaluateNegative(g: Groups)
    requires g.sign == ""
    ensures Evaluate(g.(sign := "-")) == Negated(Evaluate(g))
  {
    assert Magnitude(g.(sign := "-")) == Magnitude(g);
  }

  /** The text the pattern is matched against once one final newline is set aside. */
  function Stripped(s: string): (r: string)
    ensures Match(s) == MatchBody(r)
  {
    if |s| > 0 && s[|s| - 1] == '\n' then s[..|s| - 1] else s
  }

  lemma StrippedNegative(x: string)
    ensures Stripped("-" + x) == "-" + Stripped(x)
  {
    if |x| > 0 && x[|x| - 1] == '\n' {
      assert ("-" + x)[..|x|] == "-" + x[..|x| - 1];
    }
  }

  lemma MatchFromSign(sign: string, s: string)
    requires MatchFrom(sign, s).Some?
    ensures MatchFrom(sign, s).value.sign == sign
  {
  }

  lemma MatchNegative(x: string)
    requires x == [] || x[0] != '-'
    ensures Match("-" + x) == if Match(x).Some? then Some(Match(x).value.(sign := "-")) else None
    ensures Match(x).Some? ==> Match(x).value.sign == ""
  {
    var y := Stripped(x);
    StrippedNegative(x);
    assert y == [] || y[0] != '-';
    MatchBodyNegative(y);
    if MatchFrom("", y).Some? {
      MatchFromSign("", y);
    }
  }

  /** A leading `-` negates the value and keeps every error as it is. */
  lemma NegateDuration(x: string)
    requires x == [] || x[0] != '-'
    ensures ParseDuration("-" + x) == Negated(ParseDuration(x))
  {
    MatchNegative(x);
    if Match(x).Some? {
      EvaluateNegative(Match(x).value);
    }
  }

  /** A single digit's value. */
  lemma DigitValue(c: char)
    requires IsDigit(c)
    ensures DecimalValue([c]) == c as int - '0' as int
  {
    assert [c][..0] == [];
  }

  /** A spelled-out duration with whole seconds parses to the seconds it denotes. */
  lemma ParsesTo(g: Groups, s: string)
    requires WellFormed(g) && WholeSeconds(g) && Render(g) == s
    ensures ParseDuration(s) == Ok(TotalSeconds(g))
  {
    ParseDurationCorrect(g);
  }

  lemma EmptyDesignatorsRejected()
    ensures ParseDuration("P") == Err(Unmatched)
    ensures ParseDuration("PT") == Err(Unmatched)
  {
    assert Match("P") == MatchFrom("", "P");
    assert "P"[1..] == "";
    assert Match("PT") == MatchFrom("", "PT");
    assert "PT"[1..] == "T";
  }

  lemma OneYear()
    ensures ParseDuration("P1Y") == Ok(360 * 86400)
  {
    var g := Groups("", Some("1"), None, None, None);
    assert Render(g) == "P1Y";
    DigitValue("1"[0]);
    assert TotalDays(g) == 360;
    assert TotalSeconds(g) == 360 * 86400;
    ParsesTo(g, "P1Y");
  }

  lemma TwoWeeks()
    ensures ParseDuration("P2W") == Ok(14 * 86400)
  {
    var g := Groups("", None, None, Some(DayGroup("2", 'W')), None);
    assert Render(g) == "P2W";
    DigitValue("2"[0]);
    assert TotalDays(g) == 14;
    assert TotalSeconds(g) == 14 * 86400;
    ParsesTo(g, "P2W");
  }

  lemma DayWithEmptyTimePart()
    ensures ParseDuration("P1DT") == Ok(86400)
  {
    var g := Groups("", None, None, Some(DayGroup("1", 'D')), Some(TimeGroups(None, None, None)));
    assert Render(g) == "P1DT";
    DigitValue("1"[0]);
    assert TotalDays(g) == 1;
    assert TotalSeconds(g) == 86400;
    ParsesTo(g, "P1DT");
  }

  lemma FractionalSecondsRejected()
    ensures ParseDuration("PT1.5S") == Err(NotAnInteger("1.5"))
  {
    var g := Groups("", None, None, None, Some(TimeGroups(None, None, Some(SecondsGroup("1", Some("5"))))));
    assert SecondsText(SecondsGroup("1", Some("5"))) == "1.5";
    assert Render(g) == "PT1.5S";
    ParseDurationCorrect(g);
  }
}
