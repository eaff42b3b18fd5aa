/**
 * The comparison utility's data point: four unsigned 64-bit fields that
 * are cleared and copied in place.
 */
module ComparisonUtility {

  /** A C# `ulong`. */
  newtype ulong = x: int | 0 <= x < 0x1_0000_0000_0000_0000

  /** The four fields of a point, as a value. */
  datatype Fields = Fields(timestamp: ulong, pointID: ulong, value: ulong, flags: ulong)

  /** The fields of a point that holds nothing. */
  const Zero := Fields(0, 0, 0, 0)

  class DataPoint {
    var Timestamp: ulong
    var PointID: ulong
    var Value: ulong
    var Flags: ulong

    /** A new point starts out empty. */
    constructor ()
      ensures Contents() == Zero
    {
      Timestamp, PointID, Value, Flags := 0, 0, 0, 0;
    }

    /** The point's fields as a value. */
    function Contents(): Fields
      reads this
    {
      Fields(Timestamp, PointID, Value, Flags)
    }

    /** A point is empty when it holds only zeros. */
    predicate IsEmpty()
      reads this
      ensures IsEmpty() <==> Contents() == Zero
    {
      Timestamp == 0 && PointID == 0 && Value == 0 && Flags == 0
    }

    /** Sets every field to zero. */
    method Clear()
      modifies this
      ensures Contents() == Zero && IsEmpty()
    {
      Timestamp := 0;
      PointID := 0;
      Value := 0;
      Flags := 0;
    }

    /** Copies this point's fields into `dataPoint`; this point keeps them. */
    method CloneInto(dataPoint: DataPoint)
      modifies dataPoint
      ensures dataPoint.Contents() == old(Contents()) && Contents() == old(Contents())
    {
      dataPoint.Timestamp := Timestamp;
      dataPoint.PointID := PointID;
      dataPoint.Value := Value;
      dataPoint.Flags := Flags;
    }

    /** A new point with this point's fields. */
    method Clone() returns (dataPoint: DataPoint)
      ensures fresh(dataPoint) && dataPoint != this
      ensures dataPoint.Contents() == Contents()
    {
      dataPoint := new DataPoint();
      CloneInto(dataPoint);
    }
  }
}
