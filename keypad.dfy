/** `Keypad` of Keypad.h: the older two-digit start-time entry. The I2C keypad
    delivers a key index (`getKey()`: 0..15 for a key of "123A456B789C*0#D",
    16 for no key, 17 for a read failure), passed in here as `index`; the
    interrupt sets the pending flag through `key_changed`. */
module KeypadEntry {
  import opened Text
  import opened Services

  /** The key map loaded into the I2C keypad, one character per index. */
  const Keys: string := "123A456B789C*0#DNF"

  /** `digits`: the value of the digit key at each index, 0 for the others. */
  const Digits: seq<int> := [1, 2, 3, 0, 4, 5, 6, 0, 7, 8, 9, 0, 0, 0, 0, 0, 0, 0, 0]

  /** Index of the key 'A', which starts the entry of the start time. */
  const KeyA: nat := 3

  /** The indices the entry modes skip: 'A', 'B', 'C', '*' and everything from '#' on. */
  predicate Ignored(index: nat) {
    index == 3 || index == 7 || index == 11 || index == 12 || index >= 14
  }

  /** The digit table agrees with the key map: each digit key's entry is its
      digit, every other key's entry is 0; the indices the entry modes accept
      are exactly the ten digit keys. */
  lemma DigitsMatchKeys(index: nat)
    requires index < |Keys|
    ensures index < |Digits| && 0 <= Digits[index] <= 9
    ensures IsDigit(Keys[index]) ==> Digits[index] == DigitValue(Keys[index])
    ensures !IsDigit(Keys[index]) ==> Digits[index] == 0
    ensures !Ignored(index) <==> IsDigit(Keys[index])
  {
  }

  /** The entry state: mode, digit position and the two fields being typed. */
  datatype KeyEntry = KeyEntry(mode: InputMode, digitPosition: int, startHour: int, startMinute: int)

  /** `process_key_pending_none`: 'A' starts the hour (one more digit after
      this one), 'B' and 'C' select the temperature and duration modes; any
      other index, "no key" included, changes nothing. */
  function AfterNoneKey(e: KeyEntry, index: nat): KeyEntry {
    if index == 16 then e
    else if index == 3 then e.(digitPosition := 1, mode := StartHour)
    else if index == 7 then e.(digitPosition := 2, mode := MinTemp)
    else if index == 11 then e.(digitPosition := 2, mode := MinTime)
    else e
  }

  /** `process_key_pending_start_hour`: the first digit sets the tens, the
      second adds the units and moves on to the minutes. */
  function AfterHourKey(e: KeyEntry, index: nat): KeyEntry {
    if Ignored(index) then e
    else if e.digitPosition == 1 then e.(startHour := 10 * Digits[index], digitPosition := 0)
    else if e.digitPosition == 0 then e.(startHour := e.startHour + Digits[index], digitPosition := 1, mode := StartMinute)
    else e
  }

  /** `process_key_pending_start_minute`: the same two steps for the minutes,
      then back to no entry. */
  function AfterMinuteKey(e: KeyEntry, index: nat): KeyEntry {
    if Ignored(index) then e
    else if e.digitPosition == 1 then e.(startMinute := 10 * Digits[index], digitPosition := 0)
    else if e.digitPosition == 0 then e.(startMinute := e.startMinute + Digits[index], digitPosition := 1, mode := NoInput)
    else e
  }

  /** The handler the controller calls for the current mode; the temperature
      and duration modes have none in this version, so keys do nothing there. */
  function AfterKey(e: KeyEntry, index: nat): KeyEntry {
    match e.mode
    case NoInput => AfterNoneKey(e, index)
    case StartHour => AfterHourKey(e, index)
    case StartMinute => AfterMinuteKey(e, index)
    case _ => e
  }

  function AfterKeys(e: KeyEntry, indices: seq<nat>): KeyEntry
    decreases |indices|
  {
    if indices == [] then e else AfterKeys(AfterKey(e, indices[0]), indices[1..])
  }

  /** Both fields are two-digit values, and while a field is half typed its
      tens are set and its units are still 0. */
  predicate InRange(e: KeyEntry) {
    && 0 <= e.startHour <= 99 && 0 <= e.startMinute <= 99
    && (e.mode == StartHour ==> (e.digitPosition == 0 || e.digitPosition == 1))
    && (e.mode == StartMinute ==> (e.digitPosition == 0 || e.digitPosition == 1))
    && (e.mode == StartHour && e.digitPosition == 0 ==> e.startHour % 10 == 0)
    && (e.mode == StartMinute && e.digitPosition == 0 ==> e.startMinute % 10 == 0)
  }

  /** Every key keeps both fields within 0..99. */
  lemma AfterKeyInRange(e: KeyEntry, index: nat)
    requires InRange(e)
    ensures InRange(AfterKey(e, index))
  {
    if !Ignored(index) && index < |Keys| {
      DigitsMatchKeys(index);
    }
  }

  lemma {:induction false} AfterKeysInRange(e: KeyEntry, indices: seq<nat>)
    requires InRange(e)
    ensures InRange(AfterKeys(e, indices))
    decreases |indices|
  {
    if indices != [] {
      AfterKeyInRange(e, indices[0]);
      AfterKeysInRange(AfterKey(e, indices[0]), indices[1..]);
    }
  }

  /** In the two entry modes a skipped index changes nothing. */
  lemma IgnoredKeysChangeNothing(e: KeyEntry, index: nat)
    requires e.mode == StartHour || e.mode == StartMinute
    requires Ignored(index)
    ensures AfterKey(e, index) == e
  {
  }

  /** 'A' followed by four digit keys h1 h2 m1 m2 enters the start time
      h1h2:m1m2 and returns to no entry. */
  lemma StartTimeEntry(e: KeyEntry, h1: nat, h2: nat, m1: nat, m2: nat)
    requires e.mode == NoInput
    requires h1 < |Keys| && h2 < |Keys| && m1 < |Keys| && m2 < |Keys|
    requires IsDigit(Keys[h1]) && IsDigit(Keys[h2]) && IsDigit(Keys[m1]) && IsDigit(Keys[m2])
    ensures var r := AfterKeys(e, [KeyA, h1, h2, m1, m2]);
            && r.mode == NoInput && r.digitPosition == 1
            && r.startHour == 10 * DigitValue(Keys[h1]) + DigitValue(Keys[h2])
            && r.startMinute == 10 * DigitValue(Keys[m1]) + DigitValue(Keys[m2])
  {
    DigitsMatchKeys(h1);
    DigitsMatchKeys(h2);
    DigitsMatchKeys(m1);
    DigitsMatchKeys(m2);
    var s1 := AfterKey(e, KeyA);
    var s2 := AfterKey(s1, h1);
    var s3 := AfterKey(s2, h2);
    var s4 := AfterKey(s3, m1);
    var s5 := AfterKey(s4, m2);
    assert AfterKeys(s5, []) == s5;
    assert AfterKeys(s4, [m2]) == s5;
    assert AfterKeys(s3, [m1, m2]) == s5 by {
      assert [m1, m2][1..] == [m2];
    }
    assert AfterKeys(s2, [h2, m1, m2]) == s5 by {
      assert [h2, m1, m2][1..] == [m1, m2];
    }
    assert AfterKeys(s1, [h1, h2, m1, m2]) == s5 by {
      assert [h1, h2, m1, m2][1..] == [h2, m1, m2];
    }
    assert [KeyA, h1, h2, m1, m2][1..] == [h1, h2, m1, m2];
  }

  class Keypad {
    /** `key_change_pending` (volatile in the source, set by the interrupt). */
    var keyChangePending: bool
    var mode: InputMode
    var newStartHour: int
    var newStartMinute: int
    var digitPosition: int

    /** Only the pending flag is initialised; the mode is set by `setup_keypad`. */
    constructor ()
      ensures !keyChangePending
    {
      keyChangePending := false;
    }

    /** `setup_keypad` without the pin, interrupt and I2C set-up: no entry. */
    method SetupKeypad()
      modifies this`mode
      ensures mode == NoInput
    {
      mode := NoInput;
    }

    function Entry(): KeyEntry
      reads this
    {
      KeyEntry(mode, digitPosition, newStartHour, newStartMinute)
    }

    method ProcessKeyPendingNone(index: nat) returns (m: InputMode)
      requires index < 256
      modifies this
      ensures Entry() == AfterNoneKey(old(Entry()), index)
      ensures !keyChangePending && m == mode
    {
      keyChangePending := false;
      if index == 16 {
        return mode;
      }
      if index == 3 {
        digitPosition := 1;
        mode := StartHour;
      } else if index == 7 {
        digitPosition := 2;
        mode := MinTemp;
      } else if index == 11 {
        digitPosition := 2;
        mode := MinTime;
      }
      return mode;
    }

    method ProcessKeyPendingStartHour(index: nat) returns (m: InputMode)
      requires index < 256
      modifies this
      ensures Entry() == AfterHourKey(old(Entry()), index)
      ensures !keyChangePending && m == mode
    {
      keyChangePending := false;
      if index == 3 || index == 7 || index == 11 || index == 12 || index >= 14 {
        return mode;
      }
      if digitPosition == 1 {
        newStartHour := 10 * Digits[index];
        digitPosition := digitPosition - 1;
      } else if digitPosition == 0 {
        newStartHour := newStartHour + Digits[index];
        digitPosition := 1;
        mode := StartMinute;
      }
      return mode;
    }

    method ProcessKeyPendingStartMinute(index: nat) returns (m: InputMode)
      requires index < 256
      modifies this
      ensures Entry() == AfterMinuteKey(old(Entry()), index)
      ensures !keyChangePending && m == mode
    {
      keyChangePending := false;
      if index == 3 || index == 7 || index == 11 || index == 12 || index >= 14 {
        return mode;
      }
      if digitPosition == 1 {
        newStartMinute := 10 * Digits[index];
        digitPosition := digitPosition - 1;
      } else if digitPosition == 0 {
        newStartMinute := newStartMinute + Digits[index];
        digitPosition := 1;
        mode := NoInput;
      }
      return mode;
    }

    /** `key_changed`, called from the interrupt. */
    method KeyChanged()
      modifies this`keyChangePending
      ensures keyChangePending
    {
      keyChangePending := true;
    }

    /** Whether a key change is waiting to be handled. */
    function IsKeyPending(): (pending: bool)
      reads this
      ensures pending == keyChangePending
    {
      keyChangePending
    }

    function GetInputMode(): (m: InputMode)
      reads this
      ensures m == Entry().mode
    {
      mode
    }

    /** `set_start_time`: splits minutes since midnight into hour and minute. */
    method SetStartTime(startTime: int)
      modifies this`newStartHour, this`newStartMinute
      ensures newStartHour == ConvertToHour(startTime) && newStartMinute == ConvertToMinutes(startTime)
      ensures newStartHour * 60 + newStartMinute == startTime
      ensures 0 <= startTime < 1440 ==> 0 <= newStartHour <= 23 && 0 <= newStartMinute <= 59
    {
      ConvertRoundTrip(startTime);
      newStartHour := ConvertToHour(startTime);
      newStartMinute := ConvertToMinutes(startTime);
    }

    /** The hour entered; two digits at most while the entry is in range. */
    function GetStartHour(): (h: int)
      reads this
      ensures h == Entry().startHour
      ensures InRange(Entry()) ==> 0 <= h <= 99
    {
      newStartHour
    }

    /** The minute entered; two digits at most while the entry is in range. */
    function GetStartMinute(): (m: int)
      reads this
      ensures m == Entry().startMinute
      ensures InRange(Entry()) ==> 0 <= m <= 99
    {
      newStartMinute
    }
  }

  /** The controller's loop: a pending key is handled by the handler of the
      current mode. 'A' 1 2 3 4 sets 12:34 and ends the entry. */
  method EnterStartTime() returns (hour: int, minute: int, mode: InputMode)
    ensures hour == 12 && minute == 34 && mode == NoInput
  {
    var keypad := new Keypad();
    keypad.SetupKeypad();
    var presses: seq<nat> := [KeyA, 0, 1, 2, 4];
    ghost var expected := AfterKeys(keypad.Entry(), presses);
    StartTimeEntry(keypad.Entry(), 0, 1, 2, 4);
    for i := 0 to |presses|
      invariant AfterKeys(keypad.Entry(), presses[i..]) == expected
    {
      keypad.KeyChanged();
      var m: InputMode;
      assert presses[i..][1..] == presses[i + 1..];
      if keypad.GetInputMode() == NoInput {
        m := keypad.ProcessKeyPendingNone(presses[i]);
      } else if keypad.GetInputMode() == StartHour {
        m := keypad.ProcessKeyPendingStartHour(presses[i]);
      } else if keypad.GetInputMode() == StartMinute {
        m := keypad.ProcessKeyPendingStartMinute(presses[i]);
      }
    }
    assert presses[|presses|..] == [];
    hour := keypad.GetStartHour();
    minute := keypad.GetStartMinute();
    mode := keypad.GetInputMode();
  }
}
