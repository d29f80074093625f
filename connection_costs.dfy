/** ConnectionCosts.ts: the matrix of costs for joining a word whose right context id is
    `forwardId` to one whose left context id is `backwardId`, kept row-major in an
    `Int16Array` behind two leading cells that hold the dimensions. */
module ConnectionCostsModel {
  import opened Wrappers
  import opened Numbers

  datatype CostError =
    | BufferOverflow   // the flat index is not below the buffer length
    | UndefinedCost    // a negative flat index reads `undefined`

  /** Where cell (forwardId, backwardId) lives: after the two dimension cells, row by row. */
  function FlatIndex(backwardDimension: int, forwardId: int, backwardId: int): int {
    forwardId * backwardDimension + backwardId + 2
  }

  /** `get` on the cells: only the flat index is checked, not the two ids. */
  function CostAt(cells: seq<Int16>, backwardDimension: int, forwardId: int, backwardId: int): (r: Result<Int16, CostError>)
    ensures r == Err(BufferOverflow) <==> FlatIndex(backwardDimension, forwardId, backwardId) >= |cells|
    ensures r.Ok? <==> 0 <= FlatIndex(backwardDimension, forwardId, backwardId) < |cells|
  {
    var index := FlatIndex(backwardDimension, forwardId, backwardId);
    if |cells| < index + 1 then Err(BufferOverflow)
    else if index < 0 then Err(UndefinedCost)
    else Ok(cells[index])
  }

  /** `put` on the cells: the cost is stored as an `Int16Array` stores it, and a store at a
      negative index is dropped. */
  function PutCost(cells: seq<Int16>, backwardDimension: int, forwardId: int, backwardId: int, cost: int): Result<seq<Int16>, CostError> {
    var index := FlatIndex(backwardDimension, forwardId, backwardId);
    if |cells| < index + 1 then Err(BufferOverflow)
    else if index < 0 then Ok(cells)
    else Ok(cells[index := Int16Wrap(cost)])
  }

  /** The cells of a fresh matrix: the two dimensions, then forward·backward zeros. */
  function InitialCells(forwardDimension: nat, backwardDimension: nat): (cells: seq<Int16>)
    ensures |cells| == forwardDimension * backwardDimension + 2
    ensures cells[0] == Int16Wrap(forwardDimension) && cells[1] == Int16Wrap(backwardDimension)
    ensures forall k :: 2 <= k < |cells| ==> cells[k] == 0
  {
    [Int16Wrap(forwardDimension), Int16Wrap(backwardDimension)] + seq(forwardDimension * backwardDimension, _ => 0)
  }

  /** Cells holding the two dimensions and then only zeros are the fresh matrix. */
  lemma ZerosAfterDimensions(cells: seq<Int16>, forwardDimension: nat, backwardDimension: nat, n: nat)
    requires n == forwardDimension * backwardDimension + 2 && |cells| == n
    requires cells[0] == Int16Wrap(forwardDimension) && cells[1] == Int16Wrap(backwardDimension)
    requires forall k :: 2 <= k < n ==> cells[k] == 0
    ensures cells == InitialCells(forwardDimension, backwardDimension)
  {
    var expected := InitialCells(forwardDimension, backwardDimension);
    assert forall k :: 0 <= k < |cells| ==> cells[k] == expected[k];
  }

  /** Every in-range pair of ids has its own cell among the matrix cells. */
  lemma {:induction false} CellInRange(forwardDimension: nat, backwardDimension: nat, forwardId: int, backwardId: int)
    requires 0 <= forwardId < forwardDimension && 0 <= backwardId < backwardDimension
    ensures 2 <= FlatIndex(backwardDimension, forwardId, backwardId) < forwardDimension * backwardDimension + 2
  {
    assert forwardId * backwardDimension <= (forwardDimension - 1) * backwardDimension by {
      MultiplyMonotone(forwardId, forwardDimension - 1, backwardDimension);
    }
  }

  lemma MultiplyMonotone(a: int, b: int, c: nat)
    requires a <= b
    ensures a * c <= b * c
  {
  }

  /** Distinct in-range id pairs never share a cell. */
  lemma {:induction false} CellsDistinct(backwardDimension: nat, f1: int, b1: int, f2: int, b2: int)
    requires 0 <= b1 < backwardDimension && 0 <= b2 < backwardDimension
    requires (f1, b1) != (f2, b2)
    ensures FlatIndex(backwardDimension, f1, b1) != FlatIndex(backwardDimension, f2, b2)
  {
    if f1 == f2 {
    } else if f1 < f2 {
      assert f1 * backwardDimension + backwardDimension <= f2 * backwardDimension by {
        MultiplyMonotone(f1 + 1, f2, backwardDimension);
      }
    } else {
      assert f2 * backwardDimension + backwardDimension <= f1 * backwardDimension by {
        MultiplyMonotone(f2 + 1, f1, backwardDimension);
      }
    }
  }

  /** A fresh matrix costs 0 for every in-range pair. */
  lemma FreshMatrixIsZero(forwardDimension: nat, backwardDimension: nat, forwardId: int, backwardId: int)
    requires 0 <= forwardId < forwardDimension && 0 <= backwardId < backwardDimension
    ensures CostAt(InitialCells(forwardDimension, backwardDimension), backwardDimension, forwardId, backwardId) == Ok(0)
  {
    CellInRange(forwardDimension, backwardDimension, forwardId, backwardId);
  }

  /** put then get of the same pair gives the stored cost back, exactly when it fits in 16
      bits; both fail alike on an overflowing index. */
  lemma PutThenGet(cells: seq<Int16>, backwardDimension: int, forwardId: int, backwardId: int, cost: int)
    requires FlatIndex(backwardDimension, forwardId, backwardId) >= 0
    ensures PutCost(cells, backwardDimension, forwardId, backwardId, cost).Err? <==>
            CostAt(cells, backwardDimension, forwardId, backwardId).Err?
    ensures PutCost(cells, backwardDimension, forwardId, backwardId, cost).Ok? ==>
            CostAt(PutCost(cells, backwardDimension, forwardId, backwardId, cost).value, backwardDimension, forwardId, backwardId)
            == Ok(Int16Wrap(cost))
    ensures PutCost(cells, backwardDimension, forwardId, backwardId, cost).Ok? && -0x8000 <= cost < 0x8000 ==>
            CostAt(PutCost(cells, backwardDimension, forwardId, backwardId, cost).value, backwardDimension, forwardId, backwardId)
            == Ok(cost)
  {
  }

  /** put changes one cell at most: the length and every other cell stay. */
  lemma PutChangesOneCell(cells: seq<Int16>, backwardDimension: int, forwardId: int, backwardId: int, cost: int, k: int)
    requires PutCost(cells, backwardDimension, forwardId, backwardId, cost).Ok?
    requires 0 <= k < |cells| && k != FlatIndex(backwardDimension, forwardId, backwardId)
    ensures |PutCost(cells, backwardDimension, forwardId, backwardId, cost).value| == |cells|
    ensures PutCost(cells, backwardDimension, forwardId, backwardId, cost).value[k] == cells[k]
  {
  }

  /** A backward id past the row's end is not rejected: it reads the next row. */
  lemma {:induction false} BackwardIdSpillsIntoNextRow(cells: seq<Int16>, backwardDimension: int, forwardId: int, backwardId: int)
    requires backwardId >= backwardDimension
    ensures CostAt(cells, backwardDimension, forwardId, backwardId)
            == CostAt(cells, backwardDimension, forwardId + 1, backwardId - backwardDimension)
  {
    assert FlatIndex(backwardDimension, forwardId, backwardId)
        == FlatIndex(backwardDimension, forwardId + 1, backwardId - backwardDimension);
  }

  /** `new Int16Array(forward·backward + 2)` with the two dimensions written in front. */
  method NewCells(forwardDimension: nat, backwardDimension: nat) returns (cells: array<Int16>)
    ensures fresh(cells) && cells[..] == InitialCells(forwardDimension, backwardDimension)
  {
    MultiplyMonotone(0, forwardDimension, backwardDimension);
    var n := forwardDimension * backwardDimension + 2;
    cells := new Int16[n](_ => 0);
    cells[0] := Int16Wrap(forwardDimension);
    cells[1] := Int16Wrap(backwardDimension);
    ZerosAfterDimensions(cells[..], forwardDimension, backwardDimension, n);
  }


  class ConnectionCosts {
    var forwardDimension: int
    var backwardDimension: int
    var buffer: array<Int16>

    /** The matrix cells, dimension cells included. */
    function Cells(): seq<Int16>
      reads this, buffer
    {
      buffer[..]
    }

    constructor (forwardDimension: nat, backwardDimension: nat)
      ensures this.forwardDimension == forwardDimension && this.backwardDimension == backwardDimension
      ensures fresh(buffer) && Cells() == InitialCells(forwardDimension, backwardDimension)
    {
      this.forwardDimension := forwardDimension;
      this.backwardDimension := backwardDimension;
      var cells := NewCells(forwardDimension, backwardDimension);
      buffer := cells;
    }

    /** The `buffer` getter: a copy, so writes to it do not reach the matrix. */
    method Buffer() returns (copy: array<Int16>)
      ensures fresh(copy) && copy[..] == Cells()
    {
      copy := new Int16[buffer.Length](_ => 0);
      forall k | 0 <= k < buffer.Length {
        copy[k] := buffer[k];
      }
    }

    function Get(forwardId: int, backwardId: int): (r: Result<Int16, CostError>)
      reads this, buffer
      ensures r == CostAt(Cells(), backwardDimension, forwardId, backwardId)
    {
      var index := forwardId * backwardDimension + backwardId + 2;
      if buffer.Length < index + 1 then Err(BufferOverflow)
      else if index < 0 then Err(UndefinedCost)
      else Ok(buffer[index])
    }

    method Put(forwardId: int, backwardId: int, cost: int) returns (r: Result<(), CostError>)
      modifies buffer
      ensures PutCost(old(Cells()), backwardDimension, forwardId, backwardId, cost).Err? ==>
                r == Err(BufferOverflow) && Cells() == old(Cells())
      ensures PutCost(old(Cells()), backwardDimension, forwardId, backwardId, cost).Ok? ==>
                r == Ok(()) && Cells() == PutCost(old(Cells()), backwardDimension, forwardId, backwardId, cost).value
    {
      var index := forwardId * backwardDimension + backwardId + 2;
      if buffer.Length < index + 1 {
        return Err(BufferOverflow);
      }
      if 0 <= index {
        buffer[index] := Int16Wrap(cost);
      }
      r := Ok(());
    }

    /** Take both dimensions from the first two entries and replace the buffer with the
        entries as an `Int16Array` holds them. */
    method LoadConnectionCosts(connectionCostsBuffer: seq<int>)
      requires |connectionCostsBuffer| >= 2
      modifies this
      ensures forwardDimension == connectionCostsBuffer[0] && backwardDimension == connectionCostsBuffer[1]
      ensures fresh(buffer) && |Cells()| == |connectionCostsBuffer|
      ensures forall k :: 0 <= k < |connectionCostsBuffer| ==> Cells()[k] == Int16Wrap(connectionCostsBuffer[k])
    {
      forwardDimension := connectionCostsBuffer[0];
      backwardDimension := connectionCostsBuffer[1];
      buffer := new Int16[|connectionCostsBuffer|](k requires 0 <= k < |connectionCostsBuffer| => Int16Wrap(connectionCostsBuffer[k]));
    }
  }
}
