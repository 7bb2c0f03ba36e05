/** Shared vocabulary of the resampling engine: cell values, samples,
    per-sensor sample stores, matched cells and the row zero-flag. */
module Types {

  /** The conventional optional value. */
  datatype Option<+T> = None | Some(value: T)

  /** A cell of a sensor column. `Missing` is pandas' NaN/None and is
      distinct from a literal zero `Num(0)`. Text columns keep their
      original strings. */
  datatype Cell = Missing | Num(n: int) | Text(s: string)

  /** One reading of one sensor: a zone-naive timestamp in whole seconds
      and the sensor's value at that row of the merged frame. */
  datatype Sample = Sample(t: int, value: Cell)

  /** One sensor column of the merged frame: its name, whether its dtype
      is numeric, and its samples in frame order (the frame is sorted by
      time before resampling). */
  datatype SensorStore = SensorStore(name: string, numeric: bool, samples: seq<Sample>)

  /** A resampled cell: the copied value and whether its source sample
      lay off the quarter-hour. */
  datatype Matched = Matched(value: Cell, inexact: bool)

  /** The per-row zero classification, in increasing priority. */
  datatype ZeroFlag = Clear | Single | Repeated

  /** Resampled sensor columns, indexed [sensor][row], all `rows` long, with
      one dtype flag per sensor. */
  predicate WellShaped(columns: seq<seq<Cell>>, numeric: seq<bool>, rows: nat)
  {
    |numeric| == |columns| && forall s :: 0 <= s < |columns| ==> |columns[s]| == rows
  }

  /** The names of the sensors, in column order. */
  function Names(stores: seq<SensorStore>): (r: seq<string>)
    ensures |r| == |stores|
    ensures forall s :: 0 <= s < |stores| ==> r[s] == stores[s].name
  {
    seq(|stores|, s requires 0 <= s < |stores| => stores[s].name)
  }
}
