/** The 64-bit metadata arithmetic of src/tensor_view.h and src/tensor_view.cc: sizes are
    unsigned and wrap, strides and indices are signed, addresses are unsigned. */
module TensorView {
  import opened Arithmetic
  import opened TensorLayout

  const WORD: nat := 0x1_0000_0000_0000_0000
  const HALF: nat := 0x8000_0000_0000_0000

  /** Conversion of an integer to `size_t`. */
  function Unsigned(x: int): nat {
    x % WORD
  }

  /** Conversion of a `size_t` to `ptrdiff_t`. */
  function Signed(u: nat): int {
    if u < HALF then u else u - WORD
  }

  predicate FitsSigned(x: int) {
    0 <= x + HALF && x < HALF
  }

  datatype View = View(data: nat, shape: seq<nat>, strides: seq<int>, elementSize: nat)

  // ---------------------------------------------------------------- numel

  /** `numel`: the wrapped product of all extents, for any rank. */
  method Numel(shape: seq<nat>) returns (result: nat)
    ensures result == Product(shape) % WORD
  {
    result := 1;
    var axis := 0;
    assert shape[0..] == shape;
    while axis < |shape|
      invariant axis <= |shape|
      invariant result * Product(shape[axis..]) % WORD == Product(shape) % WORD
      invariant result < WORD
    {
      var rest := shape[axis + 1..];
      assert shape[axis..][0] == shape[axis] && shape[axis..][1..] == rest;
      Reassociate(result, shape[axis], Product(rest));
      ModMul(result * shape[axis], Product(rest), WORD);
      result := result * shape[axis] % WORD;
      axis := axis + 1;
    }
    assert shape[axis..] == [];
    assert result * 1 == result;
  }

  lemma Reassociate(a: int, b: int, c: int)
    ensures a * (b * c) == a * b * c
  {}

  // ---------------------------------------------------------------- default strides

  /** Every stride is the product of the later extents, wrapped to 64 bits and read as a signed
      number. */
  function DefaultStrides(shape: seq<nat>): (strides: seq<int>)
    ensures |strides| == |shape|
    ensures forall k :: 0 <= k < |shape| ==> strides[k] == Signed(Product(shape[k + 1..]) % WORD)
  {
    if shape == [] then []
    else
      assert forall k :: 1 <= k < |shape| ==> shape[1..][k..] == shape[k + 1..];
      [Signed(Product(shape[1..]) % WORD)] + DefaultStrides(shape[1..])
  }

  method FillDefaultStrides(shape: array<nat>, strides: array<int>)
    requires shape.Length == strides.Length
    modifies strides
    ensures strides[..] == DefaultStrides(shape[..])
  {
    if shape.Length == 0 {
      return;
    }
    strides[shape.Length - 1] := 1;
    assert shape[shape.Length..] == [];
    var index := shape.Length - 1;
    while index > 0
      invariant 0 <= index < shape.Length
      invariant forall k :: index <= k < shape.Length ==> strides[k] == Signed(Product(shape[k + 1..]) % WORD)
    {
      OneMoreAxis(shape[index..]);
      assert shape[index..][1..] == shape[index + 1..];
      strides[index - 1] := Signed(Unsigned(Unsigned(strides[index]) * shape[index]));
      index := index - 1;
    }
  }

  /** Multiplying wrapped strides wraps the product. */
  lemma OneMoreAxis(shape: seq<nat>)
    requires shape != []
    ensures Unsigned(Unsigned(Signed(Product(shape[1..]) % WORD)) * shape[0]) == Product(shape) % WORD
  {
    SignedRoundTrip(Product(shape[1..]) % WORD);
    ModMul(Product(shape[1..]), shape[0], WORD);
  }

  lemma SignedRoundTrip(u: nat)
    requires u < WORD
    ensures Unsigned(Signed(u)) == u && FitsSigned(Signed(u))
  {}

  lemma SmallWord(u: nat)
    requires u < HALF
    ensures Unsigned(u) == u && Signed(u) == u && Signed(u % WORD) == u
  {}

  lemma UnsignedSmall(x: int)
    requires 0 <= x < WORD
    ensures Unsigned(x) == x
  {}

  /** No product of trailing extents leaves the signed range. */
  ghost predicate NoOverflow(shape: seq<nat>) {
    forall k :: 1 <= k <= |shape| ==> Product(shape[k..]) < HALF
  }

  /** The strides written are the row-major ones exactly when none of them overflows. */
  lemma DefaultStridesAreRowMajor(shape: seq<nat>)
    ensures DefaultStrides(shape) == RowMajor(shape) <==> NoOverflow(shape)
  {
    hide Product, RowMajor, Signed, DefaultStrides;
    forall k | 0 <= k < |shape|
      ensures DefaultStrides(shape)[k] == RowMajor(shape)[k] <==> Product(shape[k + 1..]) < HALF
    {
      RowMajorAt(shape, k);
      SignedKeeps(Product(shape[k + 1..]));
    }
    if DefaultStrides(shape) == RowMajor(shape) {
      forall k | 1 <= k <= |shape| ensures Product(shape[k..]) < HALF {
        assert DefaultStrides(shape)[k - 1] == RowMajor(shape)[k - 1];
      }
    }
  }

  lemma SignedKeeps(u: nat)
    ensures Signed(u % WORD) == u <==> u < HALF
  {}

  // ---------------------------------------------------------------- indexing

  function EffectiveIndex(index: int, size: nat): int {
    if index < 0 then index + Signed(size) else index
  }

  /** An index that addresses the axis, counted from either end, and whose step the signed
      multiplication can represent. */
  predicate ValidStep(index: int, size: nat, stride: int) {
    && size < HALF && FitsSigned(stride)
    && 0 <= index + size && index < size
    && FitsSigned(EffectiveIndex(index, size) * stride)
  }

  /** `operator[]`: the address is added up as unsigned words. */
  function At(v: View, index: int): View
    requires v.shape != [] && v.strides != [] && ValidStep(index, v.shape[0], v.strides[0])
  {
    var step := Unsigned(Unsigned(EffectiveIndex(index, v.shape[0]) * v.strides[0]) * v.elementSize);
    View(Unsigned(Unsigned(Signed(v.data)) + step), v.shape[1..], v.strides[1..], v.elementSize)
  }

  ghost predicate ValidIndex(v: View, index: seq<int>) {
    && |index| == |v.shape| == |v.strides|
    && forall k :: 0 <= k < |index| ==> ValidStep(index[k], v.shape[k], v.strides[k])
  }

  /** One `operator[]` per axis. */
  function AtAll(v: View, index: seq<int>): View
    requires ValidIndex(v, index)
    decreases |index|
  {
    if index == [] then v else AtAll(At(v, index[0]), index[1..])
  }

  function Effective(index: seq<int>, shape: seq<nat>): (r: seq<int>)
    requires |index| == |shape|
    ensures |r| == |index|
  {
    if index == [] then [] else [EffectiveIndex(index[0], shape[0])] + Effective(index[1..], shape[1..])
  }

  /** Valid indices address elements of the box: an index counts from the front as it stands, a
      negative one from the end. */
  lemma {:induction false} EffectiveInBox(index: seq<int>, shape: seq<nat>)
    requires |index| == |shape|
    requires forall k :: 0 <= k < |index| ==> shape[k] < HALF && 0 <= index[k] + shape[k] && index[k] < shape[k]
    ensures InBox(Effective(index, shape), shape)
    ensures forall k :: 0 <= k < |index| ==>
      Effective(index, shape)[k] == if index[k] >= 0 then index[k] else index[k] + shape[k]
  {
    if index == [] {
    } else {
      EffectiveInBox(index[1..], shape[1..]);
      SmallWord(shape[0]);
      var r := Effective(index, shape);
      forall k | 0 <= k < |r|
        ensures 0 <= r[k] < shape[k] && r[k] == if index[k] >= 0 then index[k] else index[k] + shape[k]
      {
        if k > 0 {
          assert r[k] == Effective(index[1..], shape[1..])[k - 1] && shape[k] == shape[1..][k - 1];
          assert index[k] == index[1..][k - 1];
        }
      }
    }
  }

  lemma {:induction false} IndexingAddsUp(v: View, index: seq<int>)
    requires ValidIndex(v, index) && v.data < WORD
    ensures AtAll(v, index).data == Unsigned(v.data + v.elementSize * Dot(Effective(index, v.shape), v.strides))
    ensures AtAll(v, index).shape == []
    ensures InBox(Effective(index, v.shape), v.shape)
    decreases |index|
  {
    hide Unsigned, Signed, EffectiveIndex;
    EffectiveInBox(index, v.shape);
    if index == [] {
      UnsignedSmall(v.data);
      assert v.elementSize * 0 == 0;
    } else {
      var w := At(v, index[0]);
      AddressIsWord(v, index[0]);
      IndexingAddsUp(w, index[1..]);
      StepWraps(v.data, EffectiveIndex(index[0], v.shape[0]) * v.strides[0],
                Dot(Effective(index[1..], w.shape), w.strides), v.elementSize);
    }
  }

  lemma FrontIsEffective(index: seq<int>, shape: seq<nat>, front: seq<int>)
    requires |front| == |index| == |shape|
    requires forall k :: 0 <= k < |index| ==> shape[k] < HALF && 0 <= index[k] + shape[k] && index[k] < shape[k]
    requires forall k :: 0 <= k < |index| ==> front[k] == if index[k] >= 0 then index[k] else index[k] + shape[k]
    ensures front == Effective(index, shape)
  {
    hide Effective;
    EffectiveInBox(index, shape);
  }

  /** Indexing every axis lands on the element's address modulo the word size, whatever wraps on
      the way; `front` is the index counted from the front on each axis. */
  lemma IndexingLands(v: View, index: seq<int>, front: seq<int>)
    requires ValidIndex(v, index) && v.data < WORD && |front| == |index|
    requires forall k :: 0 <= k < |index| ==> front[k] == if index[k] >= 0 then index[k] else index[k] + v.shape[k]
    ensures InBox(front, v.shape)
    ensures AtAll(v, index).data == Unsigned(v.data + v.elementSize * Dot(front, v.strides))
    ensures AtAll(v, index).shape == []
  {
    hide Unsigned, Signed, EffectiveIndex, Effective, AtAll, Dot, FitsSigned;
    IndexingAddsUp(v, index);
    FrontIsEffective(index, v.shape, front);
  }

  /** Counting from the end is the same as counting from the front, on one axis ... */
  lemma FromEitherEnd(v: View, i: int)
    requires v.shape != [] && v.strides != [] && ValidStep(i, v.shape[0], v.strides[0]) && i < 0
    ensures ValidStep(i + v.shape[0], v.shape[0], v.strides[0]) && At(v, i) == At(v, i + v.shape[0])
  {}

  /** ... and on any axis of a full index. */
  lemma {:induction false} FromEitherEndAnywhere(v: View, index: seq<int>, k: nat)
    requires ValidIndex(v, index) && k < |index| && index[k] < 0
    ensures ValidIndex(v, index[k := index[k] + v.shape[k]])
    ensures AtAll(v, index) == AtAll(v, index[k := index[k] + v.shape[k]])
    decreases k
  {
    hide Unsigned, Signed;
    var front := index[k := index[k] + v.shape[k]];
    StepFromFront(index[k], v.shape[k], v.strides[k]);
    if k == 0 {
      FromEitherEnd(v, index[0]);
      assert front[1..] == index[1..];
    } else {
      FromEitherEndAnywhere(At(v, index[0]), index[1..], k - 1);
      assert front[1..] == index[1..][k - 1 := index[k] + v.shape[k]];
    }
  }

  lemma StepFromFront(i: int, size: nat, stride: int)
    requires ValidStep(i, size, stride) && i < 0
    ensures ValidStep(i + size, size, stride)
  {}

  lemma AddressIsWord(v: View, index: int)
    requires v.shape != [] && v.strides != [] && ValidStep(index, v.shape[0], v.strides[0])
    ensures At(v, index).data < WORD
  {}

  lemma StepWraps(data: nat, here: int, rest: int, size: nat)
    requires data < WORD
    ensures Unsigned(Unsigned(Unsigned(Signed(data)) + Unsigned(Unsigned(here) * size)) + size * rest)
         == Unsigned(data + size * (here + rest))
  {
    SignedRoundTrip(data);
    ModMul(here, size, WORD);
    ModAdd(here * size, data, WORD);
    ModAdd(data + here * size, size * rest, WORD);
    assert size * (here + rest) == here * size + size * rest;
  }

  /** With row-major strides the elements of a tensor that lies within the address space fill
      `numel` consecutive slots, one each: equal addresses mean equal positions, and every slot
      is some element's. */
  lemma RowMajorIndexingIsOneToOne(v: View, a: seq<int>, b: seq<int>)
    requires v.strides == RowMajor(v.shape) && v.elementSize > 0
    requires v.data + v.elementSize * Product(v.shape) <= WORD
    requires ValidIndex(v, a) && ValidIndex(v, b) && v.data < WORD
    ensures var n := Dot(Effective(a, v.shape), v.strides);
      0 <= n < Product(v.shape) && AtAll(v, a).data == v.data + v.elementSize * n
    ensures AtAll(v, a).data == AtAll(v, b).data ==> Effective(a, v.shape) == Effective(b, v.shape)
  {
    hide Unsigned, Effective, Dot, AtAll, Product, RowMajor, ValidIndex, Unravel;
    SlotOf(v, a);
    SlotOf(v, b);
    ValidInBox(v, a);
    ValidInBox(v, b);
    var m := Dot(Effective(a, v.shape), v.strides);
    var n := Dot(Effective(b, v.shape), v.strides);
    if AtAll(v, a).data == AtAll(v, b).data {
      Cancel(v.elementSize, m, n);
      NumberDeterminesIndex(Effective(a, v.shape), v.shape);
      NumberDeterminesIndex(Effective(b, v.shape), v.shape);
    }
  }

  lemma ValidInBox(v: View, index: seq<int>)
    requires ValidIndex(v, index)
    ensures InBox(Effective(index, v.shape), v.shape)
  {
    EffectiveInBox(index, v.shape);
  }

  lemma Cancel(size: nat, m: int, n: int)
    requires size > 0 && size * m == size * n
    ensures m == n
  {
    DivisionIsUnique(size * m, m, 0, size);
    DivisionIsUnique(size * n, n, 0, size);
  }

  lemma SlotOf(v: View, index: seq<int>)
    requires v.strides == RowMajor(v.shape) && v.elementSize > 0
    requires v.data + v.elementSize * Product(v.shape) <= WORD
    requires ValidIndex(v, index) && v.data < WORD
    ensures var n := Dot(Effective(index, v.shape), v.strides);
      0 <= n < Product(v.shape) && AtAll(v, index).data == v.data + v.elementSize * n
  {
    hide Unsigned, Effective, Dot, AtAll, Product, RowMajor, ValidIndex;
    IndexingAddsUp(v, index);
    NumberInRange(Effective(index, v.shape), v.shape);
    var n := Dot(Effective(index, v.shape), v.strides);
    SlotBound(v.data, v.elementSize, n, Product(v.shape));
    UnsignedSmall(v.data + v.elementSize * n);
  }

  lemma SlotBound(data: nat, size: nat, n: int, count: nat)
    requires size > 0 && 0 <= n < count && data + size * count <= WORD
    ensures 0 <= data + size * n < WORD
  {
    MulMono(n + 1, count, size);
    Distribute(n, 1, size);
    MulNonneg(size, n);
  }

  lemma RowMajorIndexingIsOnto(v: View, slot: nat)
    requires v.strides == RowMajor(v.shape) && v.elementSize > 0
    requires v.data + v.elementSize * Product(v.shape) <= WORD && v.data < WORD
    requires (forall k :: 0 <= k < |v.shape| ==> v.shape[k] < HALF) && NoOverflow(v.shape) && Product(v.shape) < HALF
    requires slot < Product(v.shape)
    ensures var index := Unravel(slot, v.shape);
      ValidIndex(v, index) && AtAll(v, index).data == v.data + v.elementSize * slot
  {
    var index := Unravel(slot, v.shape);
    EveryNumberIsReached(slot, v.shape);
    forall k | 0 <= k < |index| ensures ValidStep(index[k], v.shape[k], v.strides[k]) {
      TermIsBounded(index, v.shape, k);
      RowMajorAt(v.shape, k);
    }
    NonNegativeIsEffective(index, v.shape);
    SlotOf(v, index);
  }

  lemma {:induction false} NonNegativeIsEffective(index: seq<int>, shape: seq<nat>)
    requires InBox(index, shape)
    ensures Effective(index, shape) == index
  {
    if index == [] {
    } else {
      NonNegativeIsEffective(index[1..], shape[1..]);
    }
  }

  lemma {:induction false} TermIsBounded(index: seq<int>, shape: seq<nat>, k: nat)
    requires InBox(index, shape) && k < |shape|
    ensures 0 <= index[k] * RowMajor(shape)[k] <= Dot(index, RowMajor(shape))
  {
    var strides := RowMajor(shape);
    NumberInRange(index[1..], shape[1..]);
    assert strides[1..] == RowMajor(shape[1..]);
    MulNonneg(index[0], strides[0]);
    if k == 0 {
    } else {
      TermIsBounded(index[1..], shape[1..], k - 1);
    }
  }

  // ---------------------------------------------------------------- transposition

  /** `T()`, for the two axes it knows. */
  function Transposed(v: View): View
    requires |v.shape| >= 2 && |v.strides| >= 2
  {
    View(v.data, [v.shape[1], v.shape[0]], [v.strides[1], v.strides[0]], v.elementSize)
  }

  lemma TransposeSwapsIndices(v: View, i: int, j: int)
    requires |v.shape| == 2 && |v.strides| == 2 && v.data < WORD && ValidIndex(v, [i, j])
    ensures ValidIndex(Transposed(v), [j, i])
    ensures AtAll(Transposed(v), [j, i]).data == AtAll(v, [i, j]).data
  {
    hide Unsigned, EffectiveIndex, Effective, Dot, AtAll;
    var w := Transposed(v);
    assert ValidStep([i, j][0], v.shape[0], v.strides[0]) && ValidStep([i, j][1], v.shape[1], v.strides[1]);
    IndexingAddsUp(v, [i, j]);
    IndexingAddsUp(w, [j, i]);
    PairPlace([i, j], v.shape, v.strides);
    PairPlace([j, i], w.shape, w.strides);
  }

  lemma PairPlace(index: seq<int>, shape: seq<nat>, strides: seq<int>)
    requires |index| == |shape| == |strides| == 2
    ensures Dot(Effective(index, shape), strides)
         == EffectiveIndex(index[0], shape[0]) * strides[0] + EffectiveIndex(index[1], shape[1]) * strides[1]
  {
    hide EffectiveIndex, Dot;
    var r := Effective(index, shape);
    assert Effective(index[1..], shape[1..])
      == [EffectiveIndex(index[1], shape[1])] + Effective(index[1..][1..], shape[1..][1..]);
    assert r[0] == EffectiveIndex(index[0], shape[0]) && r[1] == EffectiveIndex(index[1], shape[1]);
    DotPair(r, strides);
  }

  lemma DotPair(index: seq<int>, strides: seq<int>)
    requires |index| == |strides| == 2
    ensures Dot(index, strides) == index[0] * strides[0] + index[1] * strides[1]
  {
    var i, t := index[1..], strides[1..];
    assert Dot(i[1..], t[1..]) == 0;
    assert Dot(i, t) == i[0] * t[0];
  }

  // ---------------------------------------------------------------- contiguity

  /** What one round of `IsMergeable` accepts: the comparison is made on unsigned words. */
  predicate Merges(shape: seq<nat>, strides: seq<int>, i: nat)
    requires |strides| == |shape| && i + 1 < |shape|
  {
    && !(shape[i] == 1 && strides[i] == 0)
    && Unsigned(strides[i]) == Unsigned(shape[i + 1] * Unsigned(strides[i + 1]))
  }

  method IsMergeable(shape: seq<nat>, strides: seq<int>, first: nat, last: nat) returns (r: bool)
    requires |strides| == |shape| && first <= last < |shape|
    ensures r <==> forall i :: first <= i < last ==> Merges(shape, strides, i)
  {
    if first == last {
      return true;
    }
    for i := first to last
      invariant forall j :: first <= j < i ==> Merges(shape, strides, j)
    {
      if shape[i] == 1 && strides[i] == 0 {
        assert !Merges(shape, strides, i);
        return false;
      }
      if Unsigned(strides[i]) != Unsigned(shape[i + 1] * Unsigned(strides[i + 1])) {
        assert !Merges(shape, strides, i);
        return false;
      }
    }
    return true;
  }

  ghost predicate Contiguous(shape: seq<nat>, strides: seq<int>)
    requires |strides| == |shape|
  {
    shape == [] || (strides[|shape| - 1] == 1 && forall i :: 0 <= i < |shape| - 1 ==> Merges(shape, strides, i))
  }

  method IsContiguous(shape: seq<nat>, strides: seq<int>) returns (r: bool)
    requires |strides| == |shape|
    ensures r <==> Contiguous(shape, strides)
  {
    if |shape| == 0 {
      return true;
    }
    var mergeable := IsMergeable(shape, strides, 0, |shape| - 1);
    if !mergeable {
      return false;
    }
    return strides[|shape| - 1] == 1;
  }

  /** The one way a row-major tensor is refused. */
  ghost predicate BroadcastBeforeLast(shape: seq<nat>, strides: seq<int>)
    requires |strides| == |shape|
  {
    exists i :: 0 <= i < |shape| - 1 && shape[i] == 1 && strides[i] == 0
  }

  lemma ContiguousTail(shape: seq<nat>, strides: seq<int>)
    requires |strides| == |shape| && |shape| >= 2
    ensures Contiguous(shape, strides) <==> Merges(shape, strides, 0) && Contiguous(shape[1..], strides[1..])
  {
    var s, t := shape[1..], strides[1..];
    assert forall i :: 0 <= i < |s| - 1 ==> (Merges(s, t, i) <==> Merges(shape, strides, i + 1));
    assert forall i :: 1 <= i < |shape| - 1 ==> (Merges(s, t, i - 1) <==> Merges(shape, strides, i));
  }

  lemma BroadcastTail(shape: seq<nat>, strides: seq<int>)
    requires |strides| == |shape| && |shape| >= 2
    ensures BroadcastBeforeLast(shape, strides)
            <==> (shape[0] == 1 && strides[0] == 0) || BroadcastBeforeLast(shape[1..], strides[1..])
  {
    var s, t := shape[1..], strides[1..];
    if BroadcastBeforeLast(shape, strides) {
      var i :| 0 <= i < |shape| - 1 && shape[i] == 1 && strides[i] == 0;
      if i > 0 {
        assert s[i - 1] == 1 && t[i - 1] == 0;
      }
    }
    if BroadcastBeforeLast(s, t) {
      var i :| 0 <= i < |s| - 1 && s[i] == 1 && t[i] == 0;
      assert shape[i + 1] == 1 && strides[i + 1] == 0;
    }
  }

  /** The test accepts exactly the default strides, wrapped or not, except that it refuses a
      size-1 axis with stride 0 before the last. */
  lemma {:induction false} ContiguousMeansDefault(shape: seq<nat>, strides: seq<int>)
    requires |strides| == |shape| && forall k :: 0 <= k < |strides| ==> FitsSigned(strides[k])
    ensures Contiguous(shape, strides)
            <==> strides == DefaultStrides(shape) && !BroadcastBeforeLast(shape, strides)
    decreases |shape|
  {
    if |shape| == 0 {
      assert strides == DefaultStrides(shape);
    } else if |shape| == 1 {
      assert shape[1..] == [];
      assert strides == [strides[0]] && DefaultStrides(shape) == [1];
    } else {
      var s, t := shape[1..], strides[1..];
      ContiguousTail(shape, strides);
      BroadcastTail(shape, strides);
      ContiguousMeansDefault(s, t);
      DefaultTail(shape, strides);
      if t == DefaultStrides(s) {
        MergesWithDefault(shape, strides);
      }
    }
  }

  lemma DefaultTail(shape: seq<nat>, strides: seq<int>)
    requires |strides| == |shape| >= 1
    ensures strides == DefaultStrides(shape)
            <==> strides[0] == Signed(Product(shape[1..]) % WORD) && strides[1..] == DefaultStrides(shape[1..])
  {
    assert DefaultStrides(shape) == [Signed(Product(shape[1..]) % WORD)] + DefaultStrides(shape[1..]);
    assert strides == [strides[0]] + strides[1..];
  }

  /** Over default later axes, a round accepts only the default stride. */
  lemma MergesWithDefault(shape: seq<nat>, strides: seq<int>)
    requires |strides| == |shape| >= 2 && FitsSigned(strides[0])
    requires strides[1..] == DefaultStrides(shape[1..])
    ensures Merges(shape, strides, 0)
            <==> strides[0] == Signed(Product(shape[1..]) % WORD) && !(shape[0] == 1 && strides[0] == 0)
  {
    hide DefaultStrides, Product;
    var s := shape[1..];
    assert strides[1] == strides[1..][0] == Signed(Product(s[1..]) % WORD);
    OneMoreAxis(s);
    ModOfWord(shape[1] * Unsigned(strides[1]), Product(s));
    SignedRoundTrip(Product(s) % WORD);
    SignedUnique(strides[0], Product(s) % WORD);
  }

  lemma ModOfWord(x: nat, y: nat)
    requires Unsigned(x) == y % WORD
    ensures Unsigned(x) == Unsigned(y % WORD)
  {}

  /** A signed word is determined by its bits. */
  lemma SignedUnique(x: int, u: nat)
    requires FitsSigned(x) && u < WORD
    ensures Unsigned(x) == u <==> x == Signed(u)
  {}

  /** In terms of the shape alone: no size-1 axis lies over a product that wraps to zero. */
  ghost predicate WrapsToZero(shape: seq<nat>) {
    exists i :: 0 <= i < |shape| - 1 && shape[i] == 1 && Product(shape[i + 1..]) % WORD == 0
  }

  lemma ContiguousByShape(shape: seq<nat>, strides: seq<int>)
    requires |strides| == |shape| && forall k :: 0 <= k < |strides| ==> FitsSigned(strides[k])
    ensures Contiguous(shape, strides) <==> strides == DefaultStrides(shape) && !WrapsToZero(shape)
  {
    hide Contiguous, DefaultStrides, Product;
    ContiguousMeansDefault(shape, strides);
    if strides == DefaultStrides(shape) {
      forall i | 0 <= i < |shape| ensures strides[i] == 0 <==> Product(shape[i + 1..]) % WORD == 0 {
        SignedRoundTrip(Product(shape[i + 1..]) % WORD);
      }
    }
  }

  /** While no product overflows, the default strides are the row-major ones; once one does, no
      row-major tensor is accepted. */
  lemma ContiguousExactly(shape: seq<nat>, strides: seq<int>)
    requires |strides| == |shape| && forall k :: 0 <= k < |strides| ==> FitsSigned(strides[k])
    ensures Contiguous(shape, strides) && strides == RowMajor(shape)
            <==> NoOverflow(shape) && strides == RowMajor(shape) && !BroadcastBeforeLast(shape, strides)
    ensures NoOverflow(shape) ==>
      (Contiguous(shape, strides) <==> strides == RowMajor(shape) && !BroadcastBeforeLast(shape, strides))
  {
    ContiguousMeansDefault(shape, strides);
    DefaultStridesAreRowMajor(shape);
  }

  /** Without an empty axis the exception cannot arise: contiguous means row-major. */
  lemma NonEmptyContiguousIsRowMajor(shape: seq<nat>, strides: seq<int>)
    requires |strides| == |shape| && forall k :: 0 <= k < |strides| ==> FitsSigned(strides[k])
    requires forall k :: 0 <= k < |shape| ==> shape[k] > 0
    ensures NoOverflow(shape) ==> (Contiguous(shape, strides) <==> strides == RowMajor(shape))
  {
    ContiguousExactly(shape, strides);
    if strides == RowMajor(shape) {
      forall i | 0 <= i < |shape| ensures strides[i] > 0 {
        RowMajorAt(shape, i);
        PositiveProduct(shape[i + 1..]);
      }
    }
  }

  lemma {:induction false} ExtentsBelowProduct(shape: seq<nat>, k: nat)
    requires k <= |shape| && forall i :: 0 <= i < |shape| ==> shape[i] > 0
    ensures Product(shape[k..]) <= Product(shape)
    ensures k < |shape| ==> shape[k] <= Product(shape)
  {
    PositiveProduct(shape);
    if shape == [] {
    } else {
      PositiveProduct(shape[1..]);
      MulAtLeast(shape[0], Product(shape[1..]));
      if k == 0 {
        assert shape[0..] == shape;
      } else {
        assert shape[1..][k - 1..] == shape[k..];
        ExtentsBelowProduct(shape[1..], k - 1);
      }
    }
  }

  /** What the test is for: a non-empty contiguous view whose elements can be counted and lie
      within the address space fills consecutive slots, one element each, from its first address
      on. */
  lemma ContiguousFillsSlots(v: View)
    requires |v.strides| == |v.shape| && forall k :: 0 <= k < |v.strides| ==> FitsSigned(v.strides[k])
    requires forall k :: 0 <= k < |v.shape| ==> v.shape[k] > 0
    requires Contiguous(v.shape, v.strides)
    requires v.elementSize > 0 && v.data < WORD && v.data + v.elementSize * Product(v.shape) <= WORD
    requires Product(v.shape) < HALF
    ensures forall a :: ValidIndex(v, a) ==>
      var n := Dot(Effective(a, v.shape), v.strides);
      0 <= n < Product(v.shape) && AtAll(v, a).data == v.data + v.elementSize * n
    ensures forall a, b :: ValidIndex(v, a) && ValidIndex(v, b) && AtAll(v, a).data == AtAll(v, b).data ==>
      Effective(a, v.shape) == Effective(b, v.shape)
    ensures forall slot: nat :: slot < Product(v.shape) ==>
      ValidIndex(v, Unravel(slot, v.shape)) && AtAll(v, Unravel(slot, v.shape)).data == v.data + v.elementSize * slot
  {
    hide Product, RowMajor, Contiguous, AtAll, Effective, Dot, ValidStep;
    forall k | 0 <= k <= |v.shape|
      ensures Product(v.shape[k..]) < HALF && (k < |v.shape| ==> v.shape[k] < HALF)
    {
      ExtentsBelowProduct(v.shape, k);
    }
    NonEmptyContiguousIsRowMajor(v.shape, v.strides);
    forall a, b | ValidIndex(v, a) && ValidIndex(v, b)
      ensures var n := Dot(Effective(a, v.shape), v.strides);
        0 <= n < Product(v.shape) && AtAll(v, a).data == v.data + v.elementSize * n
      ensures AtAll(v, a).data == AtAll(v, b).data ==> Effective(a, v.shape) == Effective(b, v.shape)
    {
      RowMajorIndexingIsOneToOne(v, a, b);
    }
    forall slot: nat | slot < Product(v.shape)
      ensures ValidIndex(v, Unravel(slot, v.shape))
      ensures AtAll(v, Unravel(slot, v.shape)).data == v.data + v.elementSize * slot
    {
      RowMajorIndexingIsOnto(v, slot);
    }
  }

  lemma {:induction false} PositiveProduct(shape: seq<nat>)
    requires forall k :: 0 <= k < |shape| ==> shape[k] > 0
    ensures Product(shape) > 0
  {
    if shape == [] {
    } else {
      PositiveProduct(shape[1..]);
      MulAtLeast(shape[0], Product(shape[1..]));
    }
  }

  /** The exception is real: an empty tensor whose default strides the test refuses. */
  lemma EmptyAxisExample()
    ensures RowMajor([1, 0]) == [0, 1] && NoOverflow([1, 0])
    ensures !Contiguous([1, 0], [0, 1])
  {
    assert [1, 0][1..] == [0] && [0][1..] == [];
    assert [1, 0][2..] == [];
    assert Product([0]) == 0;
    assert !Merges([1, 0], [0, 1], 0);
  }
}
