/** Frames of libs/common/finstypes.c: cloning and freeing. */
module Frames {
  import opened Prelude

  /** dataOrCtrl, without the value the functions exit on. */
  datatype Kind = Data | Control

  /** struct finsFrame: metaData as a map, pdu and ctrlFrame.data as the payload, NULL when its length is 0. */
  class Frame {
    const kind: Kind
    var destinationID: int
    var metaData: map<string, int>
    var payload: array?<Byte>

    constructor (kind: Kind, destinationID: int, metaData: map<string, int>, payload: array?<Byte>)
      ensures this.kind == kind && this.destinationID == destinationID
      ensures this.metaData == metaData && this.payload == payload
    {
      this.kind, this.destinationID, this.metaData, this.payload := kind, destinationID, metaData, payload;
    }

    /** The bytes the frame carries. */
    ghost function Bytes(): seq<Byte>
      reads this, payload
    {
      if payload == null then [] else payload[..]
    }

    /** A payload that is there has bytes; length 0 is represented by NULL. */
    ghost predicate Valid()
      reads this
    {
      payload != null ==> payload.Length > 0
    }
  }

  /** cloneFinsFrame: equal content, no shared memory */
  method CloneFinsFrame(ff: Frame) returns (clone: Frame)
    requires ff.Valid()
    ensures fresh(clone) && clone.Valid() && (clone.payload != null ==> fresh(clone.payload))
    ensures clone.kind == ff.kind && clone.destinationID == ff.destinationID
    ensures clone.metaData == ff.metaData && clone.Bytes() == ff.Bytes()
  {
    var payload: array?<Byte> := null;
    var len := if ff.payload == null then 0 else ff.payload.Length;
    if len != 0 {
      payload := new Byte[len](_ => 0);
      for i := 0 to len
        invariant fresh(payload) && payload.Length == len
        invariant payload[..i] == ff.payload[..i]
      {
        payload[i] := ff.payload[i];
      }
      assert payload[..] == ff.payload[..];
    }
    clone := new Frame(ff.kind, ff.destinationID, ff.metaData, payload);
  }
}
