/** `corruptAt`: read one byte at a position, add one to it and write it back
    at the same position. */
module ByteFlipper {
  import opened Bytes
  import opened Outcomes

  /** What `corruptAt` logs: the position and the byte before and after. */
  datatype CorruptionRecord = CorruptionRecord(position: nat, oldValue: Byte, newValue: Byte)

  /** The file contents after the byte at `p` has been incremented: one byte
      differs, by one modulo 256, and every other byte and the length stay. */
  function Flipped(s: seq<Byte>, p: int): (r: seq<Byte>)
    requires 0 <= p < |s|
    ensures |r| == |s|
    ensures r[p] == (s[p] as int + 1) % 256
    ensures forall i :: 0 <= i < |s| ==> (r[i] == s[i] <==> i != p)
  {
    s[p := Increment(s[p])]
  }

  /** The file held in `data` is corrupted at `position`. Positioning the
      channel before the start throws; at or past the end, `read` gets no byte
      and `bb.get(0)` throws. In both cases nothing is written. */
  method CorruptAt(data: array<Byte>, position: int) returns (r: Result<CorruptionRecord>)
    modifies data
    ensures position < 0 ==> r == Err(NegativePosition) && data[..] == old(data[..])
    ensures position >= data.Length ==> r == Err(ReadPastEnd) && data[..] == old(data[..])
    ensures 0 <= position < data.Length ==>
              && r == Ok(CorruptionRecord(position, old(data[position]), data[position]))
              && data[..] == Flipped(old(data[..]), position)
  {
    if position < 0 {
      return Err(NegativePosition);
    }
    var filePointer := position;
    if filePointer >= data.Length {
      return Err(ReadPastEnd);
    }
    // read: the one-byte buffer
    var bb := new Byte[1];
    bb[0] := data[filePointer];
    // corrupt
    var oldValue := bb[0];
    var newValue := Increment(oldValue);
    bb[0] := newValue;
    // rewrite at the same position
    data[filePointer] := bb[0];
    r := Ok(CorruptionRecord(filePointer, oldValue, newValue));
  }
}
