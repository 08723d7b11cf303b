/** `TempReader` of TempReader.h: caches the temperature sensor's last reading
    (whole °C) and formats it for the display. The sensor behind `update` is a
    parameter: `Update(reading)` stores what `sensor->read()` would return. */
module Temperature {
  import opened Text

  /** `snprintf(buf, 8, "%3d°C", value)`: the number right-justified to three
      characters, then the two bytes of "°" and 'C', cut to the seven bytes
      that fit before the terminator. */
  function DisplayText(value: int): string {
    Truncate(PadLeft(IntToString(value), 3, ' ') + Degree + "C", 8)
  }

  /** Length of the number as `std::to_string` prints it. */
  lemma NumberWidth(value: int)
    ensures |IntToString(value)| <= 3 <==> -99 <= value <= 999
    ensures |IntToString(value)| >= 1
  {
    IntToStringLength(value);
    if value >= 0 {
      DigitCountBounds(value);
    } else {
      DigitCountBounds(-value);
    }
  }

  /** The line is six bytes long exactly for values from -99 to 999: the number
      fills three characters, followed by "°C". A value that needs four
      characters gives seven bytes; a wider one is cut and loses its 'C'. */
  lemma DisplayTextShape(value: int)
    ensures |DisplayText(value)| == 6 <==> -99 <= value <= 999
    ensures -99 <= value <= 999 ==>
              DisplayText(value)[..3] == PadLeft(IntToString(value), 3, ' ') && DisplayText(value)[3..] == Degree + "C"
    ensures |IntToString(value)| == 4 ==> DisplayText(value) == IntToString(value) + Degree + "C"
    ensures |IntToString(value)| >= 5 ==> |DisplayText(value)| == 7 && DisplayText(value)[6] != 'C'
  {
    NumberWidth(value);
    var width := |IntToString(value)|;
    if width <= 3 {
      FitsThree(value);
    } else if width == 4 {
      FitsFour(value);
    } else {
      CutUnit(value);
    }
  }

  /** A number of at most three characters is padded to three and followed by the whole unit. */
  lemma FitsThree(value: int)
    requires |IntToString(value)| <= 3
    ensures |DisplayText(value)| == 6
    ensures DisplayText(value)[..3] == PadLeft(IntToString(value), 3, ' ') && DisplayText(value)[3..] == Degree + "C"
  {
    var padded := PadLeft(IntToString(value), 3, ' ');
    var full := padded + Degree + "C";
    assert |padded| == 3;
    assert |full| == 6;
    assert Truncate(full, 8) == full;
    assert full[..3] == padded && full[3..] == Degree + "C";
  }

  /** A number of four characters is followed by the whole unit, seven bytes in all. */
  lemma FitsFour(value: int)
    requires |IntToString(value)| == 4
    ensures DisplayText(value) == IntToString(value) + Degree + "C"
    ensures |DisplayText(value)| == 7
  {
    assert PadLeft(IntToString(value), 3, ' ') == IntToString(value);
  }

  /** A number of five or more characters pushes the unit's 'C' past the seventh byte. */
  lemma CutUnit(value: int)
    requires |IntToString(value)| >= 5
    ensures |DisplayText(value)| == 7 && DisplayText(value)[6] != 'C'
  {
    var number := IntToString(value);
    var full := number + Degree + "C";
    assert PadLeft(number, 3, ' ') == number;
    assert DisplayText(value) == full[..7];
    if |number| == 5 {
      assert full[6] == Degree[1];
    } else if |number| == 6 {
      assert full[6] == Degree[0];
    } else {
      assert full[6] == number[6];
      NumberCharacter(value, 6);
    }
  }

  /** No character of `std::to_string` is the 'C' of the unit. */
  lemma NumberCharacter(value: int, k: nat)
    requires k < |IntToString(value)|
    ensures IntToString(value)[k] != 'C'
  {
    if value < 0 {
      NatToStringRoundTrip(-value);
      if k > 0 {
        assert IntToString(value)[k] == NatToString(-value)[k - 1];
      }
    } else {
      NatToStringRoundTrip(value);
    }
  }

  /** The lines the controller shows: "  0°C" before the first update, " 23°C", " -5°C". */
  lemma DisplayTextExamples()
    ensures DisplayText(0) == "  0" + Degree + "C"
    ensures DisplayText(23) == " 23" + Degree + "C"
    ensures DisplayText(-5) == " -5" + Degree + "C"
  {
    SmallNatToString(23);
  }

  class TempReader {
    var lastValue: int

    /** Nothing has been read yet: the cached value is 0. */
    constructor ()
      ensures lastValue == 0
    {
      lastValue := 0;
    }

    /** `update`: caches the sensor's reading. */
    method Update(reading: int)
      modifies this`lastValue
      ensures lastValue == reading
    {
      lastValue := reading;
    }

    /** The reading of the last `update`, 0 before any. */
    function GetLatestValue(): (v: int)
      reads this
      ensures v == lastValue
    {
      lastValue
    }

    /** `getDisplayString`: the formatted cached value; six bytes for every
        value the probe can report (-99..999 °C). */
    method GetDisplayString() returns (s: string)
      ensures s == DisplayText(lastValue)
      ensures -99 <= lastValue <= 999 ==> |s| == 6 && s[3..] == Degree + "C"
    {
      s := Truncate(PadLeft(IntToString(lastValue), 3, ' ') + Degree + "C", 8);
      if -99 <= lastValue <= 999 {
        NumberWidth(lastValue);
        FitsThree(lastValue);
      }
    }
  }

  /** The value read back is the one the last update stored, and before any
      update the reader shows "  0°C". */
  method ReadBack(reading: int) returns (before: string, after: int)
    ensures before == "  0" + Degree + "C"
    ensures after == reading
  {
    var r := new TempReader();
    before := r.GetDisplayString();
    DisplayTextExamples();
    r.Update(reading);
    after := r.GetLatestValue();
  }
}
