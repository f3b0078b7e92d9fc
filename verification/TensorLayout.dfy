/** Shapes and strides of src/tensor_view.cc as mathematics: sizes, row-major strides and the
    numbering of elements they give. */
module TensorLayout {
  import opened Arithmetic

  function Product(shape: seq<nat>): nat {
    if shape == [] then 1 else shape[0] * Product(shape[1..])
  }

  /** Distance, in elements, between neighbours along each axis of a row-major tensor. */
  function RowMajor(shape: seq<nat>): (strides: seq<nat>)
    ensures |strides| == |shape|
  {
    if shape == [] then [] else [Product(shape[1..])] + RowMajor(shape[1..])
  }

  function Dot(index: seq<int>, strides: seq<int>): int
    requires |index| == |strides|
  {
    if index == [] then 0 else index[0] * strides[0] + Dot(index[1..], strides[1..])
  }

  ghost predicate InBox(index: seq<int>, shape: seq<nat>) {
    |index| == |shape| && forall k :: 0 <= k < |index| ==> 0 <= index[k] < shape[k]
  }

  /** Index of the element with a given row-major number. */
  function Unravel(n: nat, shape: seq<nat>): (index: seq<int>)
    requires n < Product(shape)
    ensures |index| == |shape|
  {
    if shape == [] then []
    else
      var rest := Product(shape[1..]);
      assert rest > 0;
      DivideBack(n, rest);
      [n / rest] + Unravel(n % rest, shape[1..])
  }

  // ---------------------------------------------------------------- the numbering is a bijection

  lemma {:induction false} RowMajorAt(shape: seq<nat>, k: nat)
    requires k < |shape|
    ensures RowMajor(shape)[k] == Product(shape[k + 1..])
  {
    if k == 0 {
    } else {
      RowMajorAt(shape[1..], k - 1);
      assert shape[1..][k..] == shape[k + 1..];
    }
  }

  /** Elements of a box are numbered below the number of elements. */
  lemma {:induction false} NumberInRange(index: seq<int>, shape: seq<nat>)
    requires InBox(index, shape)
    ensures 0 <= Dot(index, RowMajor(shape)) < Product(shape)
  {
    if shape == [] {
    } else {
      var rest := Product(shape[1..]);
      NumberInRange(index[1..], shape[1..]);
      assert RowMajor(shape)[1..] == RowMajor(shape[1..]);
      MulNonneg(index[0], rest);
      MulMono(index[0] + 1, shape[0], rest);
      Distribute(index[0], 1, rest);
    }
  }

  /** Distinct indices get distinct numbers: the index can be read back from the number. */
  lemma {:induction false} NumberDeterminesIndex(index: seq<int>, shape: seq<nat>)
    requires InBox(index, shape)
    ensures 0 <= Dot(index, RowMajor(shape)) < Product(shape)
    ensures Unravel(Dot(index, RowMajor(shape)), shape) == index
  {
    NumberInRange(index, shape);
    if shape == [] {
    } else {
      var rest := Product(shape[1..]);
      NumberDeterminesIndex(index[1..], shape[1..]);
      assert RowMajor(shape)[1..] == RowMajor(shape[1..]);
      var low := Dot(index[1..], RowMajor(shape[1..]));
      DivisionIsUnique(Dot(index, RowMajor(shape)), index[0], low, rest);
    }
  }

  /** Every number below the number of elements belongs to an index in the box. */
  lemma {:induction false} EveryNumberIsReached(n: nat, shape: seq<nat>)
    requires n < Product(shape)
    ensures InBox(Unravel(n, shape), shape)
    ensures Dot(Unravel(n, shape), RowMajor(shape)) == n
  {
    if shape == [] {
    } else {
      var rest := Product(shape[1..]);
      DivideBack(n, rest);
      QuotientBelow(n / rest, n % rest, shape[0], rest);
      EveryNumberIsReached(n % rest, shape[1..]);
      var index := Unravel(n, shape);
      assert index[1..] == Unravel(n % rest, shape[1..]);
      assert RowMajor(shape)[1..] == RowMajor(shape[1..]);
      forall k | 0 <= k < |index| ensures 0 <= index[k] < shape[k] {
        if k > 0 {
          assert index[k] == index[1..][k - 1] && shape[k] == shape[1..][k - 1];
        }
      }
    }
  }
}
