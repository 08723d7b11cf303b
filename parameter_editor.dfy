/** ParameterEditor.h/.cpp: keypad entry of the three user parameters (daily
    start time, minimum temperature, holding span). `ManualEditor` collects
    digits in a six-slot character buffer, `DisplayFormatter` renders either
    the parameters or the field being edited with a blinking cursor, and
    `ParameterEditor` owns the values and routes each key. The clock read by
    `updateBlink` is a parameter `now` here. */
module Editor {
  import opened CInt
  import opened Text
  import opened Services

  const MaxHours := 23
  const MaxMinutes := 59
  const MaxTemperature := 99
  const MaxSpan := 60

  /** Milliseconds between two toggles of the edit cursor. */
  const BlinkPeriod := 1000

  /** Size of `inputBuffer`: four digits of "HHMM", a terminator and a spare slot. */
  const BufferSize := 6

  datatype EditMode = NoEdit | TimeEdit | TempEdit | SpanEdit

  /** Number of digits after which an edit of `mode` is complete. */
  function EntryLength(mode: EditMode): (n: nat)
    ensures n <= 4 && (n == 0 <==> mode == NoEdit)
  {
    match mode
    case NoEdit => 0
    case TimeEdit => 4
    case TempEdit => 2
    case SpanEdit => 2
  }

  // ---------------------------------------------------------------------------
  // Validators (`validateTimeDigit`, `validateTempDigit`, `validateSpanDigit`).
  // `pos` is `inputPos` and `first` is what `inputBuffer[0]` holds at that time.

  function TimeDigitOk(digit: char, pos: int, first: char): bool {
    var d := DigitValue(digit);
    if pos == 0 then d <= 2
    else if pos == 1 then (if first == '2' then d <= 3 else true)
    else if pos == 2 then d <= 5
    else if pos == 3 then true
    else false
  }

  function TempDigitOk(digit: char, pos: int, first: char): bool {
    var d := DigitValue(digit);
    if pos == 0 then true
    else if pos == 1 then (if DigitValue(first) == 9 then d <= 9 else true)
    else false
  }

  function SpanDigitOk(digit: char, pos: int, first: char): bool {
    var d := DigitValue(digit);
    if pos == 0 then true
    else if pos == 1 then (if DigitValue(first) == 6 then d == 0 else true)
    else false
  }

  /** The validator `processDigit` consults in `mode`. */
  function DigitOk(mode: EditMode, digit: char, pos: int, first: char): bool {
    match mode
    case NoEdit => false
    case TimeEdit => TimeDigitOk(digit, pos, first)
    case TempEdit => TempDigitOk(digit, pos, first)
    case SpanEdit => SpanDigitOk(digit, pos, first)
  }

  /** For digit characters the validators say: a time is entered as hours
      00..23 then minutes 00..59, a temperature as any two digits, and a span
      as any two digits except 61..69. */
  lemma ValidatorRules(digit: char, first: char)
    requires IsDigit(digit) && IsDigit(first)
    ensures TimeDigitOk(digit, 0, first) <==> digit <= '2'
    ensures TimeDigitOk(digit, 1, first) <==> first != '2' || digit <= '3'
    ensures TimeDigitOk(digit, 2, first) <==> digit <= '5'
    ensures TimeDigitOk(digit, 3, first)
    ensures TempDigitOk(digit, 0, first) && TempDigitOk(digit, 1, first)
    ensures SpanDigitOk(digit, 0, first)
    ensures SpanDigitOk(digit, 1, first) <==> first != '6' || digit == '0'
    ensures forall pos :: pos < 0 || pos >= 4 ==> !TimeDigitOk(digit, pos, first)
    ensures forall pos :: pos < 0 || pos >= 2 ==> !TempDigitOk(digit, pos, first) && !SpanDigitOk(digit, pos, first)
  {
  }

  // ---------------------------------------------------------------------------
  // The editor's state as a value, and what each `ManualEditor` method does to it.

  /** The edit mode and the characters typed so far (`inputBuffer[..inputPos]`). */
  datatype Entry = Entry(mode: EditMode, typed: string)

  const NoEntry := Entry(NoEdit, [])

  /** `inputBuffer[0]` as a validator sees it: the first character typed, or
      the terminator while nothing is typed. */
  function FirstSlot(typed: string): char {
    if |typed| > 0 then typed[0] else '\0'
  }

  /** `selectMode(key)`: drops what was typed; 'A', 'B', 'C' choose the time,
      temperature and span edit, any other key keeps the mode. */
  function Selected(e: Entry, key: char): Entry {
    var mode := if key == 'A' then TimeEdit
                else if key == 'B' then TempEdit
                else if key == 'C' then SpanEdit
                else e.mode;
    Entry(mode, [])
  }

  /** `processDigit(digit)`: the entry afterwards and whether it is complete. */
  function AfterDigit(e: Entry, digit: char): (Entry, bool) {
    if e.mode == NoEdit then (e, false)
    else
      var typed := if DigitOk(e.mode, digit, |e.typed|, FirstSlot(e.typed)) && |e.typed| < EntryLength(e.mode)
                   then e.typed + [digit] else e.typed;
      (Entry(e.mode, typed), |typed| == EntryLength(e.mode))
  }

  /** The four values `commitEdit` takes by reference: start hours and minutes, temperature, span. */
  datatype Parameters = Parameters(hours: int, minutes: int, temperature: int, span: int)

  const DefaultParameters := Parameters(12, 0, 20, 30)

  /** The ranges documented on the `ParameterEditor` fields. */
  predicate InRange(p: Parameters) {
    && 0 <= p.hours <= MaxHours
    && 0 <= p.minutes <= MaxMinutes
    && 0 <= p.temperature <= MaxTemperature
    && 0 <= p.span <= MaxSpan
  }

  /** The parameters after `commitEdit`: a full buffer whose value is within
      the limit replaces the edited parameter(s); anything else changes nothing. */
  function Committed(e: Entry, p: Parameters): Parameters {
    match e.mode
    case NoEdit => p
    case TimeEdit =>
      if |e.typed| == 4 then
        var h := DigitValue(e.typed[0]) * 10 + DigitValue(e.typed[1]);
        var m := DigitValue(e.typed[2]) * 10 + DigitValue(e.typed[3]);
        if h <= MaxHours && m <= MaxMinutes then p.(hours := h, minutes := m) else p
      else p
    case TempEdit =>
      if |e.typed| == 2 && DecimalValue(e.typed) <= MaxTemperature
      then p.(temperature := DecimalValue(e.typed)) else p
    case SpanEdit =>
      if |e.typed| == 2 && DecimalValue(e.typed) <= MaxSpan
      then p.(span := DecimalValue(e.typed)) else p
  }

  /** The entry after `commitEdit`: cleared, except when no edit is active
      (the method then returns before its reset). */
  function AfterCommit(e: Entry): Entry {
    if e.mode == NoEdit then e else NoEntry
  }

  /** `ParameterEditor::processKey(key)` on the entry and the parameters. */
  function AfterKey(e: Entry, p: Parameters, key: char): (Entry, Parameters) {
    if 'A' <= key <= 'C' then (Selected(e, key), p)
    else if key == '*' then (NoEntry, p)
    else if '0' <= key <= '9' then
      var r := AfterDigit(e, key);
      if r.1 then (AfterCommit(r.0), Committed(r.0, p)) else (r.0, p)
    else (e, p)
  }

  /** A sequence of `processKey` calls. */
  function AfterKeys(e: Entry, p: Parameters, keys: string): (Entry, Parameters)
    decreases |keys|
  {
    if keys == [] then (e, p)
    else
      var r := AfterKey(e, p, keys[0]);
      AfterKeys(r.0, r.1, keys[1..])
  }

  /** What the `ParameterEditor` keeps true of its editor: no more characters
      than the mode takes, and only digits (the key dispatcher passes nothing else). */
  predicate WellFormed(e: Entry) {
    |e.typed| <= EntryLength(e.mode) && IsDigits(e.typed)
  }

  /** Every typed character passed its position's validator when it was typed. */
  predicate Accepted(e: Entry) {
    forall k :: 0 <= k < |e.typed| ==> DigitOk(e.mode, e.typed[k], k, FirstSlot(e.typed[..k]))
  }

  /** `processDigit` in mode none is refused; otherwise it appends exactly the
      accepted digits while the entry is short, keeps the entry within the
      mode's length, and reports completion exactly when that length is reached. */
  lemma AfterDigitCases(e: Entry, digit: char)
    requires |e.typed| <= EntryLength(e.mode)
    ensures e.mode == NoEdit ==> AfterDigit(e, digit) == (e, false)
    ensures var (e', complete) := AfterDigit(e, digit);
            && e'.mode == e.mode
            && |e'.typed| <= EntryLength(e.mode)
            && (complete <==> e.mode != NoEdit && |e'.typed| == EntryLength(e.mode))
            && (e'.typed == e.typed + [digit] <==>
                  e.mode != NoEdit && |e.typed| < EntryLength(e.mode) && DigitOk(e.mode, digit, |e.typed|, FirstSlot(e.typed)))
            && (e'.typed == e.typed || e'.typed == e.typed + [digit])
  {
  }

  /** Typing keeps every character of the entry a validated one. */
  lemma AfterDigitAccepted(e: Entry, digit: char)
    requires Accepted(e)
    ensures Accepted(AfterDigit(e, digit).0)
  {
    var e' := AfterDigit(e, digit).0;
    if e'.typed != e.typed {
      forall k | 0 <= k < |e'.typed|
        ensures DigitOk(e'.mode, e'.typed[k], k, FirstSlot(e'.typed[..k]))
      {
        if k < |e.typed| {
          assert e'.typed[..k] == e.typed[..k];
        } else {
          assert e'.typed[..k] == e.typed;
        }
      }
    }
  }

  /** The time validators make every complete digit time a valid one: its
      commit always stores the hours and minutes read off the buffer. */
  lemma AcceptedTimeCommits(e: Entry, p: Parameters)
    requires e.mode == TimeEdit && |e.typed| == 4 && IsDigits(e.typed) && Accepted(e)
    ensures Committed(e, p) == p.(hours := DecimalValue(e.typed[..2]), minutes := DecimalValue(e.typed[2..]))
    ensures Committed(e, p).hours <= MaxHours && Committed(e, p).minutes <= MaxMinutes
  {
    assert DigitOk(e.mode, e.typed[0], 0, FirstSlot(e.typed[..0]));
    assert DigitOk(e.mode, e.typed[1], 1, FirstSlot(e.typed[..1]));
    assert DigitOk(e.mode, e.typed[2], 2, FirstSlot(e.typed[..2]));
    TwoDigitValue(e.typed[..2]);
    TwoDigitValue(e.typed[2..]);
  }

  /** Any two digits form a storable temperature. */
  lemma TempCommits(e: Entry, p: Parameters)
    requires e.mode == TempEdit && |e.typed| == 2 && IsDigits(e.typed)
    ensures Committed(e, p) == p.(temperature := DecimalValue(e.typed))
  {
    TwoDigitValue(e.typed);
  }

  /** A complete span is stored exactly when it is at most 60; other parameters never change. */
  lemma SpanCommitsIff(e: Entry, p: Parameters)
    requires e.mode == SpanEdit && |e.typed| == 2
    ensures Committed(e, p).span == DecimalValue(e.typed) || Committed(e, p) == p
    ensures Committed(e, p) == p.(span := DecimalValue(e.typed)) <==> DecimalValue(e.typed) <= MaxSpan || p.span == DecimalValue(e.typed)
  {
  }

  /** The span validators let "75" through: the edit completes, and the commit
      then discards the value and clears the edit, so the old span stays. */
  lemma SpanOverLimitIsDropped(p: Parameters)
    ensures Accepted(Entry(SpanEdit, "75"))
    ensures AfterKeys(Entry(SpanEdit, []), p, "75") == (NoEntry, p)
  {
    assert "75"[..1] == "7";
    assert AfterKeys(Entry(SpanEdit, "7"), p, "5") == (NoEntry, p) by {
      assert "7" + ['5'] == "75";
      TwoDigitValue("75");
    }
    assert AfterKeys(Entry(SpanEdit, ""), p, "75") == (NoEntry, p) by {
      assert "" + ['7'] == "7";
    }
  }

  /** The validators only bound digits from above: typed straight into a
      `ManualEditor`, a character below '0' passes, and the commit then stores
      negative hours. `processKey` never forwards such a character. */
  lemma NonDigitReachesCommit(p: Parameters)
    ensures Accepted(Entry(TimeEdit, "*000"))
    ensures Committed(Entry(TimeEdit, "*000"), p).hours == -60
  {
    assert "*000"[..1] == "*";
    assert "*000"[..2] == "*0";
    assert "*000"[..3] == "*00";
  }

  /** Committing a well-formed entry keeps every parameter in its range. */
  lemma CommitKeepsRange(e: Entry, p: Parameters)
    requires WellFormed(e) && InRange(p)
    ensures InRange(Committed(e, p))
  {
    if |e.typed| == 2 {
      TwoDigitValue(e.typed);
    }
  }

  /** `processKey` keeps the parameter ranges and a well-formed entry, and
      ignores every key other than 'A'..'C', '*' and the digits. */
  lemma AfterKeyKeepsRange(e: Entry, p: Parameters, key: char)
    requires WellFormed(e) && InRange(p)
    ensures WellFormed(AfterKey(e, p, key).0) && InRange(AfterKey(e, p, key).1)
    ensures !('A' <= key <= 'C') && key != '*' && !('0' <= key <= '9') ==> AfterKey(e, p, key) == (e, p)
  {
    if '0' <= key <= '9' {
      var r := AfterDigit(e, key);
      assert IsDigits(r.0.typed) by {
        assert r.0.typed == e.typed || r.0.typed == e.typed + [key];
      }
      CommitKeepsRange(r.0, p);
    }
  }

  /** Whatever keys are pressed, the parameters stay in range. */
  lemma {:induction false} AfterKeysKeepsRange(e: Entry, p: Parameters, keys: string)
    requires WellFormed(e) && InRange(p)
    ensures WellFormed(AfterKeys(e, p, keys).0) && InRange(AfterKeys(e, p, keys).1)
    decreases |keys|
  {
    if keys != [] {
      var r := AfterKey(e, p, keys[0]);
      AfterKeyKeepsRange(e, p, keys[0]);
      AfterKeysKeepsRange(r.0, r.1, keys[1..]);
    }
  }

  /** 'A' followed by the four digits of a valid time HHMM stores that time
      and ends the edit, from whatever entry the editor was in. */
  lemma TimeKeysStore(e: Entry, p: Parameters, keys: string, h1: char, h2: char, m1: char, m2: char, hours: int, minutes: int)
    requires keys == ['A', h1, h2, m1, m2]
    requires IsDigit(h1) && IsDigit(h2) && IsDigit(m1) && IsDigit(m2)
    requires hours == DigitValue(h1) * 10 + DigitValue(h2) && hours <= MaxHours
    requires minutes == DigitValue(m1) * 10 + DigitValue(m2) && minutes <= MaxMinutes
    ensures AfterKeys(e, p, keys) == (NoEntry, p.(hours := hours, minutes := minutes))
  {
    ModeKey(e, p, 'A', keys, [h1, h2, m1, m2]);
    HourDigits(p, h1, h2, m1, m2);
    MinuteDigits(p, h1, h2, m1, m2);
  }

  /** The two digits of a valid hour are both accepted. */
  lemma HourDigits(p: Parameters, h1: char, h2: char, m1: char, m2: char)
    requires IsDigit(h1) && IsDigit(h2)
    requires DigitValue(h1) * 10 + DigitValue(h2) <= MaxHours
    ensures AfterKeys(Entry(TimeEdit, []), p, [h1, h2, m1, m2]) == AfterKeys(Entry(TimeEdit, [h1, h2]), p, [m1, m2])
  {
    TypedDigit(TimeEdit, [], [h1], p, h1, [h1, h2, m1, m2], [h2, m1, m2]);
    TypedDigit(TimeEdit, [h1], [h1, h2], p, h2, [h2, m1, m2], [m1, m2]);
  }

  /** After a valid hour, the two digits of a valid minute complete the entry
      and commit the time. */
  lemma MinuteDigits(p: Parameters, h1: char, h2: char, m1: char, m2: char)
    requires IsDigit(m1) && IsDigit(m2)
    requires DigitValue(h1) * 10 + DigitValue(h2) <= MaxHours
    requires DigitValue(m1) * 10 + DigitValue(m2) <= MaxMinutes
    ensures AfterKeys(Entry(TimeEdit, [h1, h2]), p, [m1, m2]) ==
              (NoEntry, p.(hours := DigitValue(h1) * 10 + DigitValue(h2), minutes := DigitValue(m1) * 10 + DigitValue(m2)))
  {
    TypedDigit(TimeEdit, [h1, h2], [h1, h2, m1], p, m1, [m1, m2], [m2]);
    TimeLastDigit(p, h1, h2, m1, m2);
  }

  /** The fourth digit of a valid time completes the entry and commits it. */
  lemma TimeLastDigit(p: Parameters, h1: char, h2: char, m1: char, m2: char)
    requires IsDigit(m2)
    requires DigitValue(h1) * 10 + DigitValue(h2) <= MaxHours
    requires DigitValue(m1) * 10 + DigitValue(m2) <= MaxMinutes
    ensures AfterKeys(Entry(TimeEdit, [h1, h2, m1]), p, [m2]) ==
              (NoEntry, p.(hours := DigitValue(h1) * 10 + DigitValue(h2), minutes := DigitValue(m1) * 10 + DigitValue(m2)))
  {
    assert [h1, h2, m1] + [m2] == [h1, h2, m1, m2];
  }

  /** One accepted digit that does not complete the entry: it is appended
      and the remaining keys act on the longer entry. */
  lemma TypedDigit(mode: EditMode, typed: string, typed': string, p: Parameters, key: char, keys: string, rest: string)
    requires mode != NoEdit && '0' <= key <= '9'
    requires |typed| + 1 < EntryLength(mode) && DigitOk(mode, key, |typed|, FirstSlot(typed))
    requires typed' == typed + [key] && keys == [key] + rest
    ensures AfterKeys(Entry(mode, typed), p, keys) == AfterKeys(Entry(mode, typed'), p, rest)
  {
    assert keys[0] == key && keys[1..] == rest;
  }

  /** A mode key starts an empty edit and the remaining keys act on it. */
  lemma ModeKey(e: Entry, p: Parameters, key: char, keys: string, rest: string)
    requires 'A' <= key <= 'C' && keys == [key] + rest
    ensures AfterKeys(e, p, keys) == AfterKeys(Selected(e, key), p, rest)
  {
    assert keys[0] == key && keys[1..] == rest;
  }

  /** Entering 15:30 stores it, as the documented key sequence "A1530" does. */
  lemma TimeEntryStores()
    ensures AfterKeys(NoEntry, DefaultParameters, "A1530") == (NoEntry, DefaultParameters.(hours := 15, minutes := 30))
  {
    TimeKeysStore(NoEntry, DefaultParameters, "A1530", '1', '5', '3', '0', 15, 30);
  }

  /** The largest time, 23:59, is accepted and stored. */
  lemma LatestTimeStores()
    ensures AfterKeys(NoEntry, DefaultParameters, "A2359") == (NoEntry, DefaultParameters.(hours := 23, minutes := 59))
  {
    TimeKeysStore(NoEntry, DefaultParameters, "A2359", '2', '3', '5', '9', 23, 59);
  }

  /** Digits the time validators refuse are dropped without leaving the edit:
      no hour starts with 3, and after a leading 2 the hour digit 4 is refused. */
  lemma RefusedTimeDigits()
    ensures AfterKeys(NoEntry, DefaultParameters, "A3") == (Entry(TimeEdit, []), DefaultParameters)
    ensures AfterKeys(NoEntry, DefaultParameters, "A24") == (Entry(TimeEdit, "2"), DefaultParameters)
  {
    var d := DefaultParameters;
    assert AfterKeys(Entry(TimeEdit, "2"), d, "4") == (Entry(TimeEdit, "2"), d);
    assert AfterKeys(Entry(TimeEdit, ""), d, "24") == (Entry(TimeEdit, "2"), d) by {
      assert "" + ['2'] == "2";
    }
  }

  /** '*' abandons an edit, and a mode key in the middle of an edit starts
      the new one empty; neither changes a parameter. */
  lemma AbortAndSwitch()
    ensures AfterKeys(NoEntry, DefaultParameters, "A1*") == (NoEntry, DefaultParameters)
    ensures AfterKeys(NoEntry, DefaultParameters, "A12B") == (Entry(TempEdit, []), DefaultParameters)
  {
    var d := DefaultParameters;
    assert AfterKeys(Entry(TimeEdit, "1"), d, "*") == (NoEntry, d);
    assert AfterKeys(Entry(TimeEdit, ""), d, "1*") == (NoEntry, d) by {
      assert "" + ['1'] == "1";
    }
    assert AfterKeys(Entry(TimeEdit, "12"), d, "B") == (Entry(TempEdit, []), d);
    assert AfterKeys(Entry(TimeEdit, "1"), d, "2B") == (Entry(TempEdit, []), d) by {
      assert "1" + ['2'] == "12";
    }
    assert AfterKeys(Entry(TimeEdit, ""), d, "12B") == (Entry(TempEdit, []), d) by {
      assert "" + ['1'] == "1";
    }
  }

  /** A span starting with 6 can only be 60, which is stored. */
  lemma SpanSixty()
    ensures AfterKeys(NoEntry, DefaultParameters, "C65") == (Entry(SpanEdit, "6"), DefaultParameters)
    ensures AfterKeys(NoEntry, DefaultParameters, "C60") == (NoEntry, DefaultParameters.(span := 60))
  {
    var d := DefaultParameters;
    assert AfterKeys(Entry(SpanEdit, "6"), d, "5") == (Entry(SpanEdit, "6"), d);
    assert AfterKeys(Entry(SpanEdit, ""), d, "65") == (Entry(SpanEdit, "6"), d) by {
      assert "" + ['6'] == "6";
    }
    assert AfterKeys(Entry(SpanEdit, "6"), d, "0") == (NoEntry, d.(span := 60)) by {
      assert "6" + ['0'] == "60";
      TwoDigitValue("60");
    }
    assert AfterKeys(Entry(SpanEdit, ""), d, "60") == (NoEntry, d.(span := 60)) by {
      assert "" + ['6'] == "6";
    }
  }

  /** Pressing `a` and then `b` is pressing `a + b`. */
  lemma {:induction false} AfterKeysConcat(e: Entry, p: Parameters, a: string, b: string)
    ensures AfterKeys(e, p, a + b) == AfterKeys(AfterKeys(e, p, a).0, AfterKeys(e, p, a).1, b)
    decreases |a|
  {
    if a == [] {
      assert a + b == b;
    } else {
      var r := AfterKey(e, p, a[0]);
      assert (a + b)[0] == a[0];
      assert (a + b)[1..] == a[1..] + b;
      AfterKeysConcat(r.0, r.1, a[1..], b);
    }
  }

  /** "A0815" stores 08:15. */
  lemma EarlyTimeStores(p: Parameters)
    ensures AfterKeys(NoEntry, p, "A0815") == (NoEntry, p.(hours := 8, minutes := 15))
  {
    TimeKeysStore(NoEntry, p, "A0815", '0', '8', '1', '5', 8, 15);
  }

  /** "B22" stores a minimum temperature of 22. */
  lemma TemperatureStores(p: Parameters)
    ensures AfterKeys(NoEntry, p, "B22") == (NoEntry, p.(temperature := 22))
  {
    var q := p.(temperature := 22);
    assert AfterKeys(Entry(TempEdit, "2"), p, "2") == (NoEntry, q) by {
      assert "2" + ['2'] == "22";
      TwoDigitValue("22");
    }
    assert AfterKeys(Entry(TempEdit, ""), p, "22") == (NoEntry, q) by {
      assert "" + ['2'] == "2";
    }
  }

  /** "C45" stores a span of 45 minutes. */
  lemma SpanStores(p: Parameters)
    ensures AfterKeys(NoEntry, p, "C45") == (NoEntry, p.(span := 45))
  {
    var q := p.(span := 45);
    assert AfterKeys(Entry(SpanEdit, "4"), p, "5") == (NoEntry, q) by {
      assert "4" + ['5'] == "45";
      TwoDigitValue("45");
    }
    assert AfterKeys(Entry(SpanEdit, ""), p, "45") == (NoEntry, q) by {
      assert "" + ['4'] == "4";
    }
  }

  /** The full workflow: time 08:15, then temperature 22, then span 45. It
      sets every parameter, so it ends in the same state from any parameters. */
  lemma WorkflowStores(p: Parameters)
    ensures AfterKeys(NoEntry, p, "A0815" + "B22" + "C45") == (NoEntry, Parameters(8, 15, 22, 45))
  {
    var q1 := p.(hours := 8, minutes := 15);
    var q2 := q1.(temperature := 22);
    EarlyTimeStores(p);
    TemperatureStores(q1);
    SpanStores(q2);
    KeysThen(NoEntry, p, "A0815", "B22", "A0815" + "B22", NoEntry, q1);
    KeysThen(NoEntry, p, "A0815" + "B22", "C45", "A0815" + "B22" + "C45", NoEntry, q2);
  }

  /** Keys split in two: the second part acts on what the first part left. */
  lemma KeysThen(e: Entry, p: Parameters, a: string, b: string, keys: string, e': Entry, p': Parameters)
    requires keys == a + b && AfterKeys(e, p, a) == (e', p')
    ensures AfterKeys(e, p, keys) == AfterKeys(e', p', b)
  {
    AfterKeysConcat(e, p, a, b);
  }

  // ---------------------------------------------------------------------------
  // Rendering.

  /** "HH:MM" as `formatIdleDisplay` builds it: a "0" before values below 10. */
  function TimeText(hours: int, minutes: int): string {
    (if hours < 10 then "0" else "") + IntToString(hours) + ":" +
    (if minutes < 10 then "0" else "") + IntToString(minutes)
  }

  /** `formatIdleDisplay(hours, minutes, temp, span)`. */
  function IdleDisplay(hours: int, minutes: int, temp: int, span: int): string {
    TimeText(hours, minutes) + ", " + IntToString(temp) + Degree + "C" + ", " + IntToString(span) + "min"
  }

  /** Two digits of a value below 100, with a leading zero, read back to the value. */
  lemma PaddedTwoDigits(v: int)
    requires 0 <= v <= 99
    ensures var s := (if v < 10 then "0" else "") + IntToString(v);
            |s| == 2 && IsDigits(s) && DecimalValue(s) == v
  {
    NatToStringRoundTrip(v);
    DigitCountBounds(v);
    var s := (if v < 10 then "0" else "") + IntToString(v);
    TwoDigitValue(s);
  }

  /** For times in range the time text is "HH:MM": five characters, digits
      around a colon, and the two digit pairs read back as the hours and minutes. */
  lemma TimeTextReadsBack(hours: int, minutes: int)
    requires 0 <= hours <= 99 && 0 <= minutes <= 99
    ensures var s := TimeText(hours, minutes);
            && |s| == 5 && s[2] == ':'
            && IsDigits(s[..2]) && DecimalValue(s[..2]) == hours
            && IsDigits(s[3..]) && DecimalValue(s[3..]) == minutes
  {
    PaddedTwoDigits(hours);
    PaddedTwoDigits(minutes);
    var hs := (if hours < 10 then "0" else "") + IntToString(hours);
    var ms := (if minutes < 10 then "0" else "") + IntToString(minutes);
    var s := TimeText(hours, minutes);
    assert s == hs + ":" + ms;
    assert s[..2] == hs;
    assert s[3..] == ms;
  }

  /** The idle line starts with the time text and shows the temperature with
      "°C" and the span with "min", separated by ", ". */
  lemma IdleDisplayExamples()
    ensures IdleDisplay(12, 0, 20, 30) == "12:00, 20" + Degree + "C, 30min"
    ensures IdleDisplay(9, 5, 7, 3) == "09:05, 7" + Degree + "C, 3min"
    ensures IdleDisplay(8, 15, 22, 45) == "08:15, 22" + Degree + "C, 45min"
  {
    SmallNumbers();
  }

  /** The decimal texts the examples use. */
  lemma SmallNumbers()
    ensures IntToString(0) == "0" && IntToString(3) == "3" && IntToString(5) == "5"
    ensures IntToString(7) == "7" && IntToString(8) == "8" && IntToString(9) == "9"
    ensures IntToString(12) == "12" && IntToString(15) == "15" && IntToString(20) == "20"
    ensures IntToString(22) == "22" && IntToString(30) == "30" && IntToString(45) == "45"
  {
    SmallNatToString(12);
    SmallNatToString(15);
    SmallNatToString(20);
    SmallNatToString(22);
    SmallNatToString(30);
    SmallNatToString(45);
  }

  /** The blinking cursor slot: '_' while the blink state is on, ' ' while off. */
  function Cursor(blink: bool): char {
    if blink then '_' else ' '
  }

  /** The digit field of an edit formatter: `width` slots holding the typed
      characters `buffer[..pos]`, then the cursor, then '_' placeholders. */
  function Slots(buffer: string, pos: int, width: nat, blink: bool): (r: string)
    requires pos <= |buffer|
    ensures |r| == width
  {
    seq(width, i requires 0 <= i < width => if i < pos then buffer[i] else if i == pos then Cursor(blink) else '_')
  }

  /** `formatTimeEdit`: the four slots with ':' after the second. */
  function TimeField(buffer: string, pos: int, blink: bool): (r: string)
    requires pos <= |buffer|
    ensures |r| == 5
  {
    var s := Slots(buffer, pos, 4, blink);
    s[..2] + ":" + s[2..]
  }

  /** The field shows the typed characters, then the cursor, then placeholders;
      it depends on the buffer only through its typed part, a full field is
      exactly the typed text, and the blink state changes only the cursor slot. */
  lemma SlotsShowTyped(buffer: string, pos: int, width: nat, blink: bool)
    requires 0 <= pos <= |buffer|
    ensures forall k :: 0 <= k < width && k < pos ==> Slots(buffer, pos, width, blink)[k] == buffer[k]
    ensures pos < width ==> Slots(buffer, pos, width, blink)[pos] == Cursor(blink)
    ensures forall k :: pos < k < width ==> Slots(buffer, pos, width, blink)[k] == '_'
    ensures Slots(buffer, pos, width, blink) == Slots(buffer[..pos], pos, width, blink)
    ensures pos == width ==> Slots(buffer, pos, width, blink) == buffer[..pos]
    ensures forall k :: 0 <= k < width && k != pos ==> Slots(buffer, pos, width, blink)[k] == Slots(buffer, pos, width, !blink)[k]
  {
  }

  /** `formatEditDisplay` for the field being edited, the other two as on the idle line. */
  function EditDisplay(mode: EditMode, buffer: string, pos: int, hours: int, minutes: int, temp: int, span: int, blink: bool): string
    requires pos <= |buffer|
  {
    var timeStr := match mode
      case TimeEdit => TimeField(buffer, pos, blink)
      case NoEdit => ""
      case _ => TimeText(hours, minutes);
    var tempStr := match mode
      case TempEdit => Slots(buffer, pos, 2, blink) + Degree + "C"
      case NoEdit => ""
      case _ => IntToString(temp) + Degree + "C";
    var spanStr := match mode
      case SpanEdit => Slots(buffer, pos, 2, blink) + "min"
      case NoEdit => ""
      case _ => IntToString(span) + "min";
    timeStr + ", " + tempStr + ", " + spanStr
  }

  /** What `getDisplayString` shows for an entry, the parameters and a blink state. */
  function Screen(e: Entry, p: Parameters, blink: bool): string {
    if e.mode == NoEdit then IdleDisplay(p.hours, p.minutes, p.temperature, p.span)
    else EditDisplay(e.mode, e.typed, |e.typed|, p.hours, p.minutes, p.temperature, p.span, blink)
  }

  /** Edit lines of the documented cases: an empty time edit shows the cursor
      and placeholders, a time with one digit shows it, and the other fields keep
      their idle rendering. */
  lemma EditDisplayExamples()
    ensures Screen(Entry(TimeEdit, []), DefaultParameters, true) == "__:__, 20" + Degree + "C, 30min"
    ensures Screen(Entry(TimeEdit, "1"), DefaultParameters, false) == "1 :__, 20" + Degree + "C, 30min"
    ensures Screen(Entry(TempEdit, "2"), DefaultParameters, true) == "12:00, 2_" + Degree + "C, 30min"
    ensures Screen(Entry(SpanEdit, []), DefaultParameters, false) == "12:00, 20" + Degree + "C,  _min"
    ensures EditDisplay(NoEdit, [], 0, 12, 0, 20, 30, true) == ", , "
  {
    EmptyTimeEditScreen();
    OneDigitTimeEditScreen();
    TempEditScreen();
    SpanEditScreen();
  }

  /** An empty time edit: the cursor in the first slot, placeholders after it. */
  lemma EmptyTimeEditScreen()
    ensures Screen(Entry(TimeEdit, []), DefaultParameters, true) == "__:__, 20" + Degree + "C, 30min"
  {
    SmallNumbers();
    assert Slots([], 0, 4, true) == "____";
  }

  /** A time edit holding "1", with the cursor blinked off. */
  lemma OneDigitTimeEditScreen()
    ensures Screen(Entry(TimeEdit, "1"), DefaultParameters, false) == "1 :__, 20" + Degree + "C, 30min"
  {
    SmallNumbers();
    assert Slots("1", 1, 4, false) == "1 __";
  }

  /** A temperature edit holding "2": the time keeps its idle rendering. */
  lemma TempEditScreen()
    ensures Screen(Entry(TempEdit, "2"), DefaultParameters, true) == "12:00, 2_" + Degree + "C, 30min"
  {
    SmallNumbers();
    assert TimeText(12, 0) == "12:00";
    assert Slots("2", 1, 2, true) == "2_";
  }

  /** An empty span edit, with the cursor blinked off. */
  lemma SpanEditScreen()
    ensures Screen(Entry(SpanEdit, []), DefaultParameters, false) == "12:00, 20" + Degree + "C,  _min"
  {
    SmallNumbers();
    assert TimeText(12, 0) == "12:00";
    assert Slots([], 0, 2, false) == " _";
  }

  // ---------------------------------------------------------------------------

  class ManualEditor {
    const inputBuffer: array<char>
    var inputPos: int
    var currentMode: EditMode

    /** The buffer has its six slots, the position stays within the mode's
        length, and the slot at the position holds the terminator. */
    ghost predicate Valid()
      reads this, inputBuffer
    {
      && inputBuffer.Length == BufferSize
      && 0 <= inputPos <= EntryLength(currentMode)
      && inputBuffer[inputPos] == '\0'
    }

    /** The entry as a value: the mode and the typed prefix of the buffer. */
    function Current(): Entry
      reads this, inputBuffer
      requires Valid()
    {
      Entry(currentMode, inputBuffer[..inputPos])
    }

    constructor ()
      ensures Valid() && fresh(inputBuffer)
      ensures Current() == NoEntry
    {
      inputBuffer := new char[BufferSize];
      currentMode := NoEdit;
      inputPos := 0;
      new;
      inputBuffer[0] := '\0';
    }

    function GetCurrentMode(): (m: EditMode)
      reads this, inputBuffer
      ensures Valid() ==> m == Current().mode
    {
      currentMode
    }

    /** The whole buffer: the typed characters, then the terminator. */
    function GetInputBuffer(): (b: string)
      reads this, inputBuffer
      ensures Valid() ==> |b| == BufferSize && b[..inputPos] == Current().typed && b[inputPos] == '\0'
    {
      inputBuffer[..]
    }

    /** The number of characters typed, at most the mode's length. */
    function GetInputPos(): (p: int)
      reads this, inputBuffer
      ensures Valid() ==> p == |Current().typed| && 0 <= p <= EntryLength(currentMode)
    {
      inputPos
    }

    method SelectMode(key: char)
      requires Valid()
      modifies this`inputPos, this`currentMode, inputBuffer
      ensures Valid()
      ensures Current() == Selected(old(Current()), key)
    {
      inputPos := 0;
      inputBuffer[0] := '\0';
      if key == 'A' {
        currentMode := TimeEdit;
      } else if key == 'B' {
        currentMode := TempEdit;
      } else if key == 'C' {
        currentMode := SpanEdit;
      }
    }

    /** True exactly when the active mode has all its digits. */
    function IsEditingComplete(): (complete: bool)
      reads this
      ensures complete <==> currentMode != NoEdit && inputPos == EntryLength(currentMode)
    {
      || (currentMode == TimeEdit && inputPos == 4)
      || (currentMode == TempEdit && inputPos == 2)
      || (currentMode == SpanEdit && inputPos == 2)
    }

    method ProcessDigit(digit: char) returns (complete: bool)
      requires Valid()
      modifies this`inputPos, inputBuffer
      ensures Valid()
      ensures (Current(), complete) == AfterDigit(old(Current()), digit)
      ensures inputPos <= 4
    {
      if currentMode == NoEdit {
        return false;
      }
      ghost var typed := inputBuffer[..inputPos];
      assert inputBuffer[0] == FirstSlot(typed);
      var valid := DigitOk(currentMode, digit, inputPos, inputBuffer[0]);
      if valid && inputPos < EntryLength(currentMode) {
        inputBuffer[inputPos] := digit;
        inputPos := inputPos + 1;
        inputBuffer[inputPos] := '\0';
        assert inputBuffer[..inputPos] == typed + [digit];
      }
      complete := IsEditingComplete();
    }

    /** The accumulation loop of `commitEdit`: the decimal value of the typed characters. */
    method TypedValue() returns (v: int)
      requires Valid()
      ensures v == DecimalValue(Current().typed)
    {
      v := 0;
      for i := 0 to inputPos
        invariant v == DecimalValue(inputBuffer[..i])
      {
        assert inputBuffer[..i + 1][..i] == inputBuffer[..i];
        v := v * 10 + DigitValue(inputBuffer[i]);
      }
    }

    /** `commitEdit(hours, minutes, temp, span)`: the reference parameters are
        passed in as `p` and come back as `q`. */
    method CommitEdit(p: Parameters) returns (q: Parameters)
      requires Valid()
      modifies this`inputPos, this`currentMode, inputBuffer
      ensures Valid()
      ensures q == Committed(old(Current()), p)
      ensures Current() == AfterCommit(old(Current()))
    {
      q := p;
      if currentMode == NoEdit {
        return;
      }
      match currentMode {
        case TimeEdit =>
          if inputPos == 4 {
            var h := DigitValue(inputBuffer[0]) * 10 + DigitValue(inputBuffer[1]);
            var m := DigitValue(inputBuffer[2]) * 10 + DigitValue(inputBuffer[3]);
            if h <= MaxHours && m <= MaxMinutes {
              q := q.(hours := h, minutes := m);
            }
          }
        case TempEdit =>
          if inputPos == 2 {
            var t := TypedValue();
            if t <= MaxTemperature {
              q := q.(temperature := t);
            }
          }
        case SpanEdit =>
          if inputPos == 2 {
            var s := TypedValue();
            if s <= MaxSpan {
              q := q.(span := s);
            }
          }
      }
      currentMode := NoEdit;
      inputPos := 0;
      inputBuffer[0] := '\0';
    }

    method AbortEdit()
      requires Valid()
      modifies this`inputPos, this`currentMode, inputBuffer
      ensures Valid()
      ensures Current() == NoEntry
    {
      currentMode := NoEdit;
      inputPos := 0;
      inputBuffer[0] := '\0';
    }
  }

  class DisplayFormatter {
    var lastBlinkTime: ULong
    var blinkState: bool

    constructor ()
      ensures lastBlinkTime == 0 && !blinkState
    {
      lastBlinkTime := 0;
      blinkState := false;
    }

    /** Toggles the cursor once at least a blink period has passed since the
        last toggle, measured with wrapping `unsigned long` subtraction. */
    method UpdateBlink(now: ULong)
      modifies this
      ensures SubU(now, old(lastBlinkTime)) >= BlinkPeriod ==> blinkState == !old(blinkState) && lastBlinkTime == now
      ensures SubU(now, old(lastBlinkTime)) < BlinkPeriod ==> blinkState == old(blinkState) && lastBlinkTime == old(lastBlinkTime)
    {
      if SubU(now, lastBlinkTime) >= BlinkPeriod {
        blinkState := !blinkState;
        lastBlinkTime := now;
      }
    }

    method FormatTimeEdit(buffer: string, pos: int) returns (result: string)
      requires pos <= |buffer|
      ensures result == TimeField(buffer, pos, blinkState)
    {
      ghost var slots := Slots(buffer, pos, 4, blinkState);
      result := "";
      for i := 0 to 4
        invariant result == if i <= 2 then slots[..i] else slots[..2] + ":" + slots[2..i]
      {
        if i == 2 {
          result := result + ":";
        }
        if i < pos {
          result := result + [buffer[i]];
        } else if i == pos {
          result := result + [Cursor(blinkState)];
        } else {
          result := result + "_";
        }
        assert slots[..i + 1] == slots[..i] + [slots[i]];
        assert i >= 2 ==> slots[2..i + 1] == slots[2..i] + [slots[i]];
      }
      assert slots[2..4] == slots[2..];
    }

    /** `formatTempEdit` and `formatSpanEdit`, which have the same body. */
    method FormatTwoDigitEdit(buffer: string, pos: int) returns (result: string)
      requires pos <= |buffer|
      ensures result == Slots(buffer, pos, 2, blinkState)
    {
      ghost var slots := Slots(buffer, pos, 2, blinkState);
      result := "";
      for i := 0 to 2
        invariant result == slots[..i]
      {
        if i < pos {
          result := result + [buffer[i]];
        } else if i == pos {
          result := result + [Cursor(blinkState)];
        } else {
          result := result + "_";
        }
        assert slots[..i + 1] == slots[..i] + [slots[i]];
      }
    }

    method FormatTempEdit(buffer: string, pos: int) returns (result: string)
      requires pos <= |buffer|
      ensures result == Slots(buffer, pos, 2, blinkState)
    {
      result := FormatTwoDigitEdit(buffer, pos);
    }

    method FormatSpanEdit(buffer: string, pos: int) returns (result: string)
      requires pos <= |buffer|
      ensures result == Slots(buffer, pos, 2, blinkState)
    {
      result := FormatTwoDigitEdit(buffer, pos);
    }

    method FormatEditDisplay(mode: EditMode, buffer: string, pos: int, hours: int, minutes: int, temp: int, span: int)
      returns (result: string)
      requires pos <= |buffer|
      ensures result == EditDisplay(mode, buffer, pos, hours, minutes, temp, span, blinkState)
    {
      var timeStr, tempStr, spanStr := "", "", "";
      match mode {
        case TimeEdit =>
          timeStr := FormatTimeEdit(buffer, pos);
          tempStr := IntToString(temp) + Degree + "C";
          spanStr := IntToString(span) + "min";
        case TempEdit =>
          timeStr := TimeText(hours, minutes);
          tempStr := FormatTempEdit(buffer, pos);
          tempStr := tempStr + Degree + "C";
          spanStr := IntToString(span) + "min";
        case SpanEdit =>
          timeStr := TimeText(hours, minutes);
          tempStr := IntToString(temp) + Degree + "C";
          spanStr := FormatSpanEdit(buffer, pos);
          spanStr := spanStr + "min";
        case NoEdit =>
      }
      result := timeStr + ", " + tempStr + ", " + spanStr;
    }
  }

  class ParameterEditor {
    var timeHours: int
    var timeMinutes: int
    var temperature: int
    var timeSpan: int
    const manualEditor: ManualEditor
    const displayFormatter: DisplayFormatter

    /** The parameters as a value. */
    function Params(): Parameters
      reads this
    {
      Parameters(timeHours, timeMinutes, temperature, timeSpan)
    }

    /** The editor is consistent, holds only digits, and every parameter is in
        the range its field documents. */
    ghost predicate Valid()
      reads this, manualEditor, manualEditor.inputBuffer
    {
      manualEditor.Valid() && WellFormed(manualEditor.Current()) && InRange(Params())
    }

    constructor ()
      ensures Valid() && fresh(manualEditor) && fresh(manualEditor.inputBuffer) && fresh(displayFormatter)
      ensures Params() == DefaultParameters
      ensures manualEditor.Current() == NoEntry
      ensures displayFormatter.lastBlinkTime == 0 && !displayFormatter.blinkState
    {
      manualEditor := new ManualEditor();
      displayFormatter := new DisplayFormatter();
      timeHours, timeMinutes := 12, 0;
      temperature, timeSpan := 20, 30;
    }

    method ProcessKey(key: char, now: ULong)
      requires Valid()
      modifies this`timeHours, this`timeMinutes, this`temperature, this`timeSpan
      modifies manualEditor`inputPos, manualEditor`currentMode, manualEditor.inputBuffer, displayFormatter
      ensures Valid()
      ensures (manualEditor.Current(), Params()) == AfterKey(old(manualEditor.Current()), old(Params()), key)
      ensures SubU(now, old(displayFormatter.lastBlinkTime)) >= BlinkPeriod ==>
                displayFormatter.blinkState == !old(displayFormatter.blinkState) && displayFormatter.lastBlinkTime == now
      ensures SubU(now, old(displayFormatter.lastBlinkTime)) < BlinkPeriod ==>
                displayFormatter.blinkState == old(displayFormatter.blinkState) && displayFormatter.lastBlinkTime == old(displayFormatter.lastBlinkTime)
    {
      ghost var e := manualEditor.Current();
      displayFormatter.UpdateBlink(now);
      AfterKeyKeepsRange(e, Params(), key);
      if 'A' <= key <= 'C' {
        manualEditor.SelectMode(key);
      } else if key == '*' {
        manualEditor.AbortEdit();
      } else if '0' <= key <= '9' {
        var complete := manualEditor.ProcessDigit(key);
        if complete {
          var q := manualEditor.CommitEdit(Params());
          timeHours, timeMinutes, temperature, timeSpan := q.hours, q.minutes, q.temperature, q.span;
        }
      }
    }

    method GetDisplayString(now: ULong) returns (s: string)
      requires Valid()
      modifies displayFormatter
      ensures SubU(now, old(displayFormatter.lastBlinkTime)) >= BlinkPeriod ==>
                displayFormatter.blinkState == !old(displayFormatter.blinkState) && displayFormatter.lastBlinkTime == now
      ensures SubU(now, old(displayFormatter.lastBlinkTime)) < BlinkPeriod ==>
                displayFormatter.blinkState == old(displayFormatter.blinkState) && displayFormatter.lastBlinkTime == old(displayFormatter.lastBlinkTime)
      ensures s == Screen(manualEditor.Current(), Params(), displayFormatter.blinkState)
    {
      displayFormatter.UpdateBlink(now);
      if manualEditor.GetCurrentMode() == NoEdit {
        s := IdleDisplay(timeHours, timeMinutes, temperature, timeSpan);
      } else {
        var pos := manualEditor.GetInputPos();
        SlotsShowTyped(manualEditor.GetInputBuffer(), pos, 4, displayFormatter.blinkState);
        SlotsShowTyped(manualEditor.GetInputBuffer(), pos, 2, displayFormatter.blinkState);
        s := displayFormatter.FormatEditDisplay(manualEditor.GetCurrentMode(), manualEditor.GetInputBuffer(), pos,
                                                timeHours, timeMinutes, temperature, timeSpan);
      }
    }

    function GetTimeHours(): (r: int)
      reads this, manualEditor, manualEditor.inputBuffer
      ensures r == Params().hours
      ensures Valid() ==> 0 <= r <= MaxHours
    {
      timeHours
    }

    function GetTimeMinutes(): (r: int)
      reads this, manualEditor, manualEditor.inputBuffer
      ensures r == Params().minutes
      ensures Valid() ==> 0 <= r <= MaxMinutes
    {
      timeMinutes
    }

    /** Start time in minutes since midnight; in range it is below a day and
        splits back into the hours and minutes. */
    function GetTimeInMinutes(): (r: int)
      reads this
      ensures InRange(Params()) ==> 0 <= r < 24 * 60 && ConvertToHour(r) == timeHours && ConvertToMinutes(r) == timeMinutes
    {
      var r := timeHours * 60 + timeMinutes;
      ConvertRoundTrip(r);
      r
    }

    function GetTemperature(): (r: int)
      reads this, manualEditor, manualEditor.inputBuffer
      ensures r == Params().temperature
      ensures Valid() ==> 0 <= r <= MaxTemperature
    {
      temperature
    }

    function GetTimeSpan(): (r: int)
      reads this, manualEditor, manualEditor.inputBuffer
      ensures r == Params().span
      ensures Valid() ==> 0 <= r <= MaxSpan
    {
      timeSpan
    }

    method SetTime(hours: int, minutes: int)
      requires Valid()
      modifies this`timeHours, this`timeMinutes
      ensures Valid()
      ensures 0 <= hours <= MaxHours && 0 <= minutes <= MaxMinutes ==> timeHours == hours && timeMinutes == minutes
      ensures !(0 <= hours <= MaxHours && 0 <= minutes <= MaxMinutes) ==> timeHours == old(timeHours) && timeMinutes == old(timeMinutes)
    {
      if hours >= 0 && hours <= MaxHours && minutes >= 0 && minutes <= MaxMinutes {
        timeHours := hours;
        timeMinutes := minutes;
      }
    }

    method SetTemperature(temp: int)
      requires Valid()
      modifies this`temperature
      ensures Valid()
      ensures temperature == if 0 <= temp <= MaxTemperature then temp else old(temperature)
    {
      if temp >= 0 && temp <= MaxTemperature {
        temperature := temp;
      }
    }

    method SetTimeSpan(span: int)
      requires Valid()
      modifies this`timeSpan
      ensures Valid()
      ensures timeSpan == if 0 <= span <= MaxSpan then span else old(timeSpan)
    {
      if span >= 0 && span <= MaxSpan {
        timeSpan := span;
      }
    }
  }

  /** A fresh editor fed `keys`, with the clock standing still: the parameters
      and the display follow `AfterKeys`, the cursor never blinks on, and the
      parameters stay in range. */
  method RunKeys(keys: string) returns (p: Parameters, screen: string)
    ensures p == AfterKeys(NoEntry, DefaultParameters, keys).1
    ensures InRange(p)
    ensures screen == Screen(AfterKeys(NoEntry, DefaultParameters, keys).0, p, false)
  {
    var editor := new ParameterEditor();
    for i := 0 to |keys|
      invariant editor.Valid()
      invariant fresh(editor.manualEditor) && fresh(editor.manualEditor.inputBuffer) && fresh(editor.displayFormatter)
      invariant editor.displayFormatter.lastBlinkTime == 0 && !editor.displayFormatter.blinkState
      invariant (editor.manualEditor.Current(), editor.Params()) == AfterKeys(NoEntry, DefaultParameters, keys[..i])
    {
      AfterKeysSnoc(NoEntry, DefaultParameters, keys[..i], keys[i]);
      assert keys[..i + 1] == keys[..i] + [keys[i]];
      editor.ProcessKey(keys[i], 0);
    }
    assert keys[..|keys|] == keys;
    p := editor.Params();
    screen := editor.GetDisplayString(0);
  }

  /** Pressing one more key continues from where the earlier keys left off. */
  lemma {:induction false} AfterKeysSnoc(e: Entry, p: Parameters, keys: string, key: char)
    ensures AfterKeys(e, p, keys + [key]) == AfterKey(AfterKeys(e, p, keys).0, AfterKeys(e, p, keys).1, key)
    decreases |keys|
  {
    if keys != [] {
      var r := AfterKey(e, p, keys[0]);
      assert (keys + [key])[1..] == keys[1..] + [key];
      AfterKeysSnoc(r.0, r.1, keys[1..], key);
    } else {
      assert ([] + [key])[1..] == [];
    }
  }
}
