/** The canonical market-data values every other module speaks in.
    Prices and sizes are fixed-point integers; Fixed shows they stay inside int64. */
module Norm {

  datatype Option<+T> = None | Some(value: T)

  datatype Result<+T, +E> = Ok(value: T) | Err(error: E)

  /** SideUnknown is the zero value; the engine files everything that is not Sell under bids. */
  datatype Side = SideUnknown | Buy | Sell

  datatype Level = Level(price: int, size: int)

  /** One change to one price level: set its size, or clear it when size is zero. */
  datatype Update = Update(side: Side, price: int, size: int, seqNo: nat, isSnapshot: bool)

  /** A change as a venue frame carries it, before the connector numbers it. */
  datatype Change = Change(side: Side, price: int, size: int)

  /** A full picture of one book, valid as of seqNo; levels come in the venue's order. */
  datatype Snapshot = Snapshot(bids: seq<Level>, asks: seq<Level>, seqNo: nat)

  /** The resting size at every price, per side. */
  datatype Levels = Levels(bids: map<int, int>, asks: map<int, int>)

  const EMPTY_LEVELS := Levels(map[], map[])

  function Max(a: nat, b: nat): nat { if a < b then b else a }
  function Min(a: nat, b: nat): nat { if a < b then a else b }
}
