/** The enums and minute/hour conversions of Services.h. The `Status` enum is
    the one of Status.h as well (there the fourth value is named `holding`). */
module Services {
  import opened CInt

  /** Process status, in declaration order: idle = 0 … error = 5. */
  datatype Status = Idle | Ready | Heating | Holding | Done | Error

  /** The keypad's entry mode, in declaration order: none = 0 … min_time = 4. */
  datatype InputMode = NoInput | StartHour | StartMinute | MinTemp | MinTime

  /** The integer value of each status enumerator. */
  function StatusValue(s: Status): (v: int)
    ensures 0 <= v <= 5
    ensures s == Idle <==> v == 0
    ensures s == Error <==> v == 5
  {
    match s
    case Idle => 0
    case Ready => 1
    case Heating => 2
    case Holding => 3
    case Done => 4
    case Error => 5
  }

  /** The enumerator with a given value (the inverse of `StatusValue`). */
  function StatusOf(v: int): (s: Status)
    requires 0 <= v <= 5
  {
    if v == 0 then Idle else if v == 1 then Ready else if v == 2 then Heating
    else if v == 3 then Holding else if v == 4 then Done else Error
  }

  /** The enumerator values are exactly 0..5, one per status, in the declared order. */
  lemma StatusValueRoundTrip(s: Status, v: int)
    ensures StatusOf(StatusValue(s)) == s
    ensures 0 <= v <= 5 ==> StatusValue(StatusOf(v)) == v
  {
  }

  /** The integer value of each input mode enumerator. */
  function InputModeValue(m: InputMode): (v: int)
    ensures 0 <= v <= 4
    ensures m == NoInput <==> v == 0
  {
    match m
    case NoInput => 0
    case StartHour => 1
    case StartMinute => 2
    case MinTemp => 3
    case MinTime => 4
  }

  /** `convert_to_minutes`: the minute part of a count of minutes (C `%`). */
  function ConvertToMinutes(timeMin: int): int {
    CRem(timeMin, 60)
  }

  /** `convert_to_hour`: whole hours, by subtracting the minute part and dividing (C `/`). */
  function ConvertToHour(timeMin: int): int {
    CDiv(timeMin - ConvertToMinutes(timeMin), 60)
  }

  /** Hours and minutes recombine to the input for every input; for a
      non-negative input the minutes are 0..59 and the hours are `t / 60`;
      for a negative input both parts are non-positive. */
  lemma ConvertRoundTrip(t: int)
    ensures ConvertToHour(t) * 60 + ConvertToMinutes(t) == t
    ensures t >= 0 ==> 0 <= ConvertToMinutes(t) <= 59 && ConvertToHour(t) == t / 60
    ensures t < 0 ==> -59 <= ConvertToMinutes(t) <= 0 && ConvertToHour(t) <= 0
  {
    CRemBounds(t, 60);
    var q := CDiv(t, 60);
    assert t - ConvertToMinutes(t) == q * 60;
    CRemBounds(q * 60, 60);
    if q * 60 < 0 {
      assert CDiv(q * 60, 60) == -(-(q * 60) / 60);
      assert -(q * 60) == (-q) * 60;
    }
  }
}
