/** What a display writer puts on its four lines. A content provider
    (`std::function<String()>`) reads the controller's state, passed in as a
    `World`; an empty provider is `None`. */
module DisplayLines {
  import opened Wrappers

  const LineCount: nat := 4

  type Provider<!World> = World -> string

  /** `isValidLineNumber`: 0..3. */
  predicate IsValidLineNumber(lineNumber: int) {
    0 <= lineNumber <= 3
  }

  /** `updateLine`: the provider's text, or "" when the line has no provider. */
  function LineText<World>(provider: Option<Provider<World>>, w: World): string {
    match provider
    case None => ""
    case Some(f) => f(w)
  }

  /** The four lines after a refresh, line by line. */
  function Refreshed<World>(providers: seq<Option<Provider<World>>>, w: World): (lines: seq<string>)
    requires |providers| == LineCount
    ensures |lines| == LineCount
  {
    [LineText(providers[0], w), LineText(providers[1], w), LineText(providers[2], w), LineText(providers[3], w)]
  }

  /** Each refreshed line comes from its own provider alone: it is that
      provider's text, or empty without one. */
  lemma RefreshedLines<World>(providers: seq<Option<Provider<World>>>, w: World, k: nat)
    requires |providers| == LineCount && k < LineCount
    ensures providers[k].None? ==> Refreshed(providers, w)[k] == ""
    ensures providers[k].Some? ==> Refreshed(providers, w)[k] == providers[k].value(w)
  {
  }

  /** `setLineProvider`: a valid line number and a non-empty provider replace
      that one provider; anything else is ignored. */
  function WithLineProvider<World>(providers: seq<Option<Provider<World>>>, lineNumber: int, provider: Option<Provider<World>>): seq<Option<Provider<World>>>
    requires |providers| == LineCount
  {
    if IsValidLineNumber(lineNumber) && provider.Some? then providers[lineNumber := provider] else providers
  }

  /** Replacing one provider changes only that line of the next refresh, and
      an ignored call changes no line. */
  lemma ReplaceOneLine<World>(providers: seq<Option<Provider<World>>>, lineNumber: int, provider: Option<Provider<World>>, w: World)
    requires |providers| == LineCount
    ensures |WithLineProvider(providers, lineNumber, provider)| == LineCount
    ensures forall k :: 0 <= k < LineCount && k != lineNumber ==>
              Refreshed(WithLineProvider(providers, lineNumber, provider), w)[k] == Refreshed(providers, w)[k]
    ensures IsValidLineNumber(lineNumber) && provider.Some? ==>
              Refreshed(WithLineProvider(providers, lineNumber, provider), w)[lineNumber] == provider.value(w)
    ensures !(IsValidLineNumber(lineNumber) && provider.Some?) ==>
              Refreshed(WithLineProvider(providers, lineNumber, provider), w) == Refreshed(providers, w)
  {
  }

  /** Four empty lines. */
  function Blank(): (lines: seq<string>)
    ensures |lines| == LineCount && forall k :: 0 <= k < LineCount ==> lines[k] == ""
  {
    ["", "", "", ""]
  }
}

/** `DisplayWriter` of Arduino/HaySteamerTemperatureControl/DisplayWriter.cpp:
    providers are installed after construction, with `setAllProvider` or one
    at a time. Each `display->write(m_content)` is recorded as one frame. */
module ArduinoDisplayWriter {
  import opened Wrappers
  import opened DisplayLines

  class DisplayWriter<World> {
    const content: array<string>
    const lineProviders: array<Option<Provider<World>>>
    /** The four lines as written to the display, one entry per `write`. */
    var frames: seq<seq<string>>

    ghost predicate Valid()
      reads this
    {
      content.Length == LineCount && lineProviders.Length == LineCount
    }

    /** Clears the four lines and writes them once; no provider is set. */
    constructor ()
      ensures Valid() && fresh(content) && fresh(lineProviders)
      ensures content[..] == Blank() && frames == [Blank()]
      ensures forall k :: 0 <= k < LineCount ==> lineProviders[k].None?
    {
      content := new string[LineCount](_ => "");
      lineProviders := new Option<Provider<World>>[LineCount](_ => None);
      frames := [];
      new;
      ClearAllLines();
    }

    /** `setAllProvider`: the four providers, in line order (empty ones too). */
    method SetAllProvider(line1: Option<Provider<World>>, line2: Option<Provider<World>>,
                          line3: Option<Provider<World>>, line4: Option<Provider<World>>)
      requires Valid()
      modifies lineProviders
      ensures lineProviders[..] == [line1, line2, line3, line4]
    {
      lineProviders[0] := line1;
      lineProviders[1] := line2;
      lineProviders[2] := line3;
      lineProviders[3] := line4;
    }

    method SetLineProvider(lineNumber: int, provider: Option<Provider<World>>)
      requires Valid()
      modifies lineProviders
      ensures lineProviders[..] == WithLineProvider(old(lineProviders[..]), lineNumber, provider)
    {
      if !IsValidLineNumber(lineNumber) {
        return;
      }
      if provider.None? {
        return;
      }
      lineProviders[lineNumber] := provider;
    }

    /** `updateLine`: refreshes one valid line from its provider. */
    method UpdateLine(lineNumber: int, w: World)
      requires Valid()
      modifies content
      ensures IsValidLineNumber(lineNumber) ==>
                content[..] == old(content[..])[lineNumber := LineText(lineProviders[lineNumber], w)]
      ensures !IsValidLineNumber(lineNumber) ==> content[..] == old(content[..])
    {
      if !IsValidLineNumber(lineNumber) {
        return;
      }
      if lineProviders[lineNumber].None? {
        ClearLine(lineNumber);
        return;
      }
      content[lineNumber] := lineProviders[lineNumber].value(w);
    }

    /** `update`: refreshes lines 0..3 in order, then writes all four once. */
    method Update(w: World)
      requires Valid()
      modifies content, this`frames
      ensures content[..] == Refreshed(lineProviders[..], w)
      ensures frames == old(frames) + [content[..]]
    {
      for i := 0 to 4
        invariant forall k :: 0 <= k < i ==> content[k] == LineText(lineProviders[k], w)
        invariant frames == old(frames)
      {
        UpdateLine(i, w);
      }
      assert content[..] == [content[0], content[1], content[2], content[3]];
      frames := frames + [content[..]];
    }

    method ClearAllLines()
      requires Valid()
      modifies content, this`frames
      ensures content[..] == Blank() && frames == old(frames) + [Blank()]
    {
      for i := 0 to 4
        invariant forall k :: 0 <= k < i ==> content[k] == ""
        invariant frames == old(frames)
      {
        content[i] := "";
      }
      assert content[..] == [content[0], content[1], content[2], content[3]];
      frames := frames + [content[..]];
    }

    method ClearLine(lineNumber: int)
      requires Valid() && IsValidLineNumber(lineNumber)
      modifies content
      ensures content[..] == old(content[..])[lineNumber := ""]
    {
      content[lineNumber] := "";
    }
  }
  /** Four constant providers "A".."D"; after one refresh line 1 gets a
      provider of "X": the second frame differs from the first in line 1 only. */
  method ReplaceLineScenario() returns (first: seq<string>, second: seq<string>)
    ensures first == ["A", "B", "C", "D"]
    ensures second == ["A", "X", "C", "D"]
  {
    var writer := new DisplayWriter<int>();
    writer.SetAllProvider(Some(_ => "A"), Some(_ => "B"), Some(_ => "C"), Some(_ => "D"));
    writer.Update(0);
    first := writer.content[..];
    writer.SetLineProvider(1, Some(_ => "X"));
    writer.Update(0);
    second := writer.content[..];
  }
}

/** `DisplayWriter` of DisplayWriter.cpp (the variant the tests use): the four
    providers are given to the constructor; `updateAllLines` refreshes. */
module ProviderDisplayWriter {
  import opened Wrappers
  import opened DisplayLines

  class DisplayWriter<World> {
    const content: array<string>
    const lineProviders: array<Option<Provider<World>>>
    /** The four lines as written to the display, one entry per `write`. */
    var frames: seq<seq<string>>

    ghost predicate Valid()
      reads this
    {
      content.Length == LineCount && lineProviders.Length == LineCount
    }

    /** Installs the four providers, clears the lines and writes them once. */
    constructor (line1: Option<Provider<World>>, line2: Option<Provider<World>>,
                 line3: Option<Provider<World>>, line4: Option<Provider<World>>)
      ensures Valid() && fresh(content) && fresh(lineProviders)
      ensures lineProviders[..] == [line1, line2, line3, line4]
      ensures content[..] == Blank() && frames == [Blank()]
    {
      content := new string[LineCount](_ => "");
      lineProviders := new Option<Provider<World>>[LineCount][line1, line2, line3, line4];
      frames := [];
      new;
      ClearAllLines();
    }

    method SetLineProvider(lineNumber: int, provider: Option<Provider<World>>)
      requires Valid()
      modifies lineProviders
      ensures lineProviders[..] == WithLineProvider(old(lineProviders[..]), lineNumber, provider)
    {
      if !IsValidLineNumber(lineNumber) {
        return;
      }
      if provider.None? {
        return;
      }
      lineProviders[lineNumber] := provider;
    }

    method UpdateLine(lineNumber: int, w: World)
      requires Valid()
      modifies content
      ensures IsValidLineNumber(lineNumber) ==>
                content[..] == old(content[..])[lineNumber := LineText(lineProviders[lineNumber], w)]
      ensures !IsValidLineNumber(lineNumber) ==> content[..] == old(content[..])
    {
      if !IsValidLineNumber(lineNumber) {
        return;
      }
      if lineProviders[lineNumber].None? {
        ClearLine(lineNumber);
        return;
      }
      content[lineNumber] := lineProviders[lineNumber].value(w);
    }

    /** `updateAllLines`: refreshes lines 0..3 in order, clearing those
        without a provider, then writes all four once. */
    method UpdateAllLines(w: World)
      requires Valid()
      modifies content, this`frames
      ensures content[..] == Refreshed(lineProviders[..], w)
      ensures frames == old(frames) + [content[..]]
    {
      for i := 0 to 4
        invariant forall k :: 0 <= k < i ==> content[k] == LineText(lineProviders[k], w)
        invariant frames == old(frames)
      {
        UpdateLine(i, w);
      }
      assert content[..] == [content[0], content[1], content[2], content[3]];
      frames := frames + [content[..]];
    }

    method ClearAllLines()
      requires Valid()
      modifies content, this`frames
      ensures content[..] == Blank() && frames == old(frames) + [Blank()]
    {
      for i := 0 to 4
        invariant forall k :: 0 <= k < i ==> content[k] == ""
        invariant frames == old(frames)
      {
        content[i] := "";
      }
      assert content[..] == [content[0], content[1], content[2], content[3]];
      frames := frames + [content[..]];
    }

    method ClearLine(lineNumber: int)
      requires Valid() && IsValidLineNumber(lineNumber)
      modifies content
      ensures content[..] == old(content[..])[lineNumber := ""]
    {
      content[lineNumber] := "";
    }
  }
}
