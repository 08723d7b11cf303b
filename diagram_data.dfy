/** `DiagramArray` of DiagramDataSet.h: a fixed array of 180 samples filled
    from the front; `add_data_point` refuses once `index` reaches 179. */
module Diagram {

  /** `DiagramDataSet`: a timestamp and two temperatures, all 0 by default. */
  datatype DataPoint = DataPoint(currentTime: int, temperature1: int, temperature2: int)

  const Capacity: nat := 180

  /** The index at which `add_data_point` stops accepting. */
  const LastIndex: nat := 179

  /** The samples after a successful add: slot `index` replaced, all others kept. */
  function Stored(slots: seq<DataPoint>, index: nat, p: DataPoint): (r: seq<DataPoint>)
    requires index < |slots|
    ensures |r| == |slots| && r[index] == p
    ensures forall k :: 0 <= k < |slots| && k != index ==> r[k] == slots[k]
  {
    slots[index := p]
  }

  /** The samples recorded so far, oldest first: the first `index` slots. */
  function Recorded(slots: seq<DataPoint>, index: nat): seq<DataPoint>
    requires index <= |slots|
  {
    slots[..index]
  }

  /** An accepted sample goes to the end of the recorded samples and the
      slots beyond it, the last one included, keep their contents. */
  lemma StoredAppends(slots: seq<DataPoint>, index: nat, p: DataPoint)
    requires index < LastIndex && |slots| == Capacity
    ensures Recorded(Stored(slots, index, p), index + 1) == Recorded(slots, index) + [p]
    ensures Stored(slots, index, p)[index + 1..] == slots[index + 1..]
    ensures Stored(slots, index, p)[LastIndex] == slots[LastIndex]
  {
  }

  class DiagramArray {
    var index: int
    const diagramData: array<DataPoint>

    ghost predicate Valid()
      reads this
    {
      diagramData.Length == Capacity && 0 <= index <= LastIndex
    }

    constructor ()
      ensures Valid() && index == 0 && fresh(diagramData)
      ensures forall k :: 0 <= k < Capacity ==> diagramData[k] == DataPoint(0, 0, 0)
    {
      index := 0;
      diagramData := new DataPoint[Capacity](_ => DataPoint(0, 0, 0));
    }

    /** `add_data_point`: refused (false, nothing changes) at index 179;
        otherwise the sample is written at `index`, which moves on by one.
        The write is always inside the array and slot 179 is never written. */
    method AddDataPoint(currentTime: int, temperature1: int, temperature2: int) returns (added: bool)
      requires Valid()
      modifies this`index, diagramData
      ensures Valid()
      ensures added <==> old(index) != LastIndex
      ensures added ==> index == old(index) + 1 &&
                        diagramData[..] == Stored(old(diagramData[..]), old(index), DataPoint(currentTime, temperature1, temperature2))
      ensures !added ==> index == old(index) && diagramData[..] == old(diagramData[..])
      ensures diagramData[LastIndex] == old(diagramData[LastIndex])
    {
      if index == LastIndex {
        return false;
      }
      diagramData[index] := DataPoint(currentTime, temperature1, temperature2);
      index := index + 1;
      return true;
    }
  }

  /** From a fresh array, 179 samples are accepted in order and the 180th is
      refused; the refused one leaves the recorded samples as they were. */
  method FillUp(samples: seq<DataPoint>) returns (accepted: nat, recorded: seq<DataPoint>)
    ensures accepted == if |samples| <= LastIndex then |samples| else LastIndex
    ensures recorded == samples[..accepted]
  {
    var d := new DiagramArray();
    accepted := 0;
    for i := 0 to |samples|
      invariant d.Valid() && d.index == accepted
      invariant accepted == if i <= LastIndex then i else LastIndex
      invariant d.diagramData[..accepted] == samples[..accepted]
    {
      var p := samples[i];
      ghost var before := d.diagramData[..];
      var ok := d.AddDataPoint(p.currentTime, p.temperature1, p.temperature2);
      if ok {
        StoredAppends(before, accepted, p);
        assert samples[..accepted + 1] == samples[..accepted] + [p];
        accepted := accepted + 1;
      }
    }
    recorded := d.diagramData[..accepted];
  }
}
