/** Layouts that slicing a fresh array reaches and on which the double offset of the strided paths shows. */
module Witnesses {
  import opened Results
  import opened Shapes
  import opened Slices
  import opened Layouts
  import opened Views
  import opened Reachability
  import opened Materialise
  import opened SumAxes

  /** The second column of the first two rows of an array of eight-byte elements with two columns. */
  const SecondColumn: Layout := Layout([2, 1], [16, 8], 8, 8)

  function Rows(rows: nat): Layout {
    Layout([rows, 2], [16, 8], 0, 8)
  }

  function Columns(): seq<ViewOp> {
    [SliceAxis(1, SliceArg(Some(1), None, None))]
  }

  function FirstRows(): seq<ViewOp> {
    [SliceAxis(0, SliceArg(None, Some(2), None)), SliceAxis(1, SliceArg(Some(1), None, None))]
  }

  lemma FreshRows(rows: nat)
    requires 0 < rows <= 4
    ensures Fresh(Rows(rows), [rows, 2], 8) && Prod([rows, 2]) == rows * 2
  {
    assert [rows, 2][1..] == [2] && [2][1..] == [];
    assert StrideAcc([2], 8) == SatMul(StrideAcc([], 8), 2) == 16;
    assert CStrides([rows, 2], 8) == [StrideAcc([2], 8)] + CStrides([2], 8) == [16, 8];
    assert Prod([2]) == 2 * Prod([]);
  }

  /** Both arrays come to the same view, by one slice and by two. */
  lemma ColumnReached()
    ensures ChainAllowed(Rows(2), Columns()) && Chain(Rows(2), Columns()) == Some(SecondColumn)
    ensures ChainAllowed(Rows(4), FirstRows()) && Chain(Rows(4), FirstRows()) == Some(SecondColumn)
  {
    var right, top := SliceArg(Some(1), None, None), SliceArg(None, Some(2), None);
    SliceResolved(right, 2);
    SliceResolved(top, 4);
    hide SliceArg.Resolve;
    ColumnOfTwo(right);
    assert Columns()[1..] == [] && FirstRows()[1..] == Columns();
    assert View(Rows(4), SliceAxis(0, top)) == Some(Rows(2)) by {
      assert Rows(4).Sliced(0, Resolved(0, 2, 1)).shape == [2, 2];
      assert Rows(4).Sliced(0, Resolved(0, 2, 1)).strides == [16, 8];
    }
  }

  lemma SliceResolved(arg: SliceArg, dim: nat)
    requires (arg == SliceArg(Some(1), None, None) && dim == 2) || (arg == SliceArg(None, Some(2), None) && dim == 4)
    ensures arg.Resolve(dim) == Ok(if dim == 2 then Resolved(1, 1, 1) else Resolved(0, 2, 1))
    ensures StaysInside(arg, dim)
  {
  }

  lemma ColumnOfTwo(arg: SliceArg)
    requires arg.Resolve(2) == Ok(Resolved(1, 1, 1))
    ensures View(Rows(2), SliceAxis(1, arg)) == Some(SecondColumn)
  {
    hide SliceArg.Resolve;
    assert Rows(2).Sliced(1, Resolved(1, 1, 1)).shape == [2, 1];
    assert Rows(2).Sliced(1, Resolved(1, 1, 1)).strides == [16, 8];
  }

  lemma ColumnLayout()
    ensures !SecondColumn.CContiguous() && NonEmpty(SecondColumn.shape)
    ensures SecondColumn.Off(HighIndex(SecondColumn.shape, SecondColumn.strides)) == 24
  {
    var l := SecondColumn;
    assert l.shape[1..] == [1] && l.strides[1..] == [8] && [1][1..] == [] && [8][1..] == [];
    assert StrideAcc([1], 8) == SatMul(StrideAcc([], 8), 1) == 8;
    assert CStrides(l.shape, 8)[0] == 8;
    assert HighIndex([1], [8]) == [0] + HighIndex([], []);
    assert HighIndex(l.shape, l.strides) == [1] + HighIndex([1], [8]) == [1, 0];
    assert [1, 0][1..] == [0];
    assert Dot([0], [8]) == 0 * 8 + Dot([], []);
    assert Dot([1, 0], l.strides) == 1 * 16 + Dot([0], [8]);
  }

  /** A copy of the column of the two-row array reads beyond its 32 bytes. */
  lemma CopyReadsOutside()
    ensures Fresh(Rows(2), [2, 2], 8) && 8 * Prod([2, 2]) == 32
    ensures Chain(Rows(2), Columns()) == Some(SecondColumn)
    ensures Fits(SecondColumn, 32) && !CopyInside(SecondColumn, 32)
  {
    hide Fits, SharesOnlyByBroadcast, Injective, Chain, ChainAllowed, Rows, Columns, Prod, Fresh;
    FreshRows(2);
    ColumnReached();
    Reachable(Rows(2), [2, 2], 8, Columns());
    ColumnLayout();
  }

  /** A copy of the same column of the four-row array stays inside its 64 bytes and reads eight bytes too far. */
  lemma CopyReadsElsewhere()
    ensures Fresh(Rows(4), [4, 2], 8) && 8 * Prod([4, 2]) == 64
    ensures Chain(Rows(4), FirstRows()) == Some(SecondColumn)
    ensures Fits(SecondColumn, 64) && CopyInside(SecondColumn, 64)
    ensures !CopyFaithful(SecondColumn, 64)
  {
    hide Fits, SharesOnlyByBroadcast, Injective, Chain, ChainAllowed, Rows, FirstRows, CopyFaithful, Prod, Fresh;
    FreshRows(4);
    ColumnReached();
    Reachable(Rows(4), [4, 2], 8, FirstRows());
    ColumnLayout();
    CopyFaithfulExactly(SecondColumn, 64);
  }

  /** `sum_axis` of the same view reads outside the small array, and in the large one loses the total. */
  lemma SumReadsElsewhere(axis: nat, keepdims: bool)
    requires axis < 2
    ensures !SumInside(SecondColumn, 32) && SumInside(SecondColumn, 64)
    ensures !Conserves(SecondColumn, axis, keepdims)
  {
    hide Conserves;
    ColumnLayout();
    NonEmptyProd(SecondColumn.shape);
    SumAxisConservesExactly(SecondColumn, axis, keepdims);
  }
}
