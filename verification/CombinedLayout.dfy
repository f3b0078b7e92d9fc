/** The byte arithmetic of a combined shape/strides block
    (src/common/shape_strides_storage.h:162-189, 214-229). */
module CombinedLayout {
  import opened Arithmetic
  import opened Wrappers

  const SIZE_MAX: nat := 0xFFFF_FFFF_FFFF_FFFF

  /** `sizeof` and `alignof` of the two element types. */
  datatype Layout = Layout(sizeBytes: nat, sizeAlign: nat, strideBytes: nat, strideAlign: nat)

  /** What C++ guarantees of any such pair: a size is a positive multiple of its alignment, and
      `operator new` aligns for both. */
  ghost predicate Proper(l: Layout, newAlign: nat) {
    && l.sizeAlign > 0 && l.strideAlign > 0 && newAlign > 0
    && l.sizeBytes > 0 && l.sizeBytes % l.sizeAlign == 0
    && l.strideBytes > 0 && l.strideBytes % l.strideAlign == 0
    && newAlign % l.sizeAlign == 0 && newAlign % l.strideAlign == 0
  }

  /** `None` stands for `std::abort`; the test divides so as not to wrap itself. */
  function CheckedMultiply(left: nat, right: nat): Option<nat> {
    if right != 0 && left > SIZE_MAX / right then None else Some(left * right)
  }

  function CheckedAdd(left: nat, right: nat): Option<nat>
    requires right <= SIZE_MAX
  {
    if left > SIZE_MAX - right then None else Some(left + right)
  }

  /** The division in the test detects exactly the products that do not fit. */
  lemma CheckedMultiplyExactly(left: nat, right: nat)
    ensures CheckedMultiply(left, right) == if left * right <= SIZE_MAX then Some(left * right) else None
  {
    if right != 0 {
      var q, r := SIZE_MAX / right, SIZE_MAX % right;
      assert SIZE_MAX == q * right + r;
      if left > q {
        MulMono(q + 1, left, right);
        Distribute(q, 1, right);
      } else {
        MulMono(left, q, right);
      }
    } else {
      assert left * right == 0;
    }
  }

  /** The number of bytes a combined block asks for. */
  function CombinedBytes(shapeSize: nat, stridesSize: nat, l: Layout): Option<nat>
    requires 0 < l.strideAlign <= SIZE_MAX
  {
    CheckedMultiplyExactly(stridesSize, l.strideBytes);
    match CheckedMultiply(shapeSize, l.sizeBytes)
    case None => None
    case Some(shapeBytes) =>
      match CheckedMultiply(stridesSize, l.strideBytes)
      case None => None
      case Some(stridesBytes) =>
        match CheckedAdd(shapeBytes, l.strideAlign - 1)
        case None => None
        case Some(padded) => CheckedAdd(padded, stridesBytes)
  }

  /** The computation aborts exactly when the exact byte count does not fit a word, and never
      wraps. */
  lemma CombinedBytesExactly(shapeSize: nat, stridesSize: nat, l: Layout)
    requires 0 < l.strideAlign <= SIZE_MAX
    ensures var exact := shapeSize * l.sizeBytes + (l.strideAlign - 1) + stridesSize * l.strideBytes;
      CombinedBytes(shapeSize, stridesSize, l) == if exact <= SIZE_MAX then Some(exact) else None
  {
    hide CheckedMultiply;
    CheckedMultiplyExactly(shapeSize, l.sizeBytes);
    CheckedMultiplyExactly(stridesSize, l.strideBytes);
    MulNonneg(shapeSize, l.sizeBytes);
    MulNonneg(stridesSize, l.strideBytes);
  }

  /** `std::align`: the first aligned address, if `size` bytes from there on stay within
      `space`. */
  function Align(alignment: nat, size: nat, start: nat, space: nat): Option<nat>
    requires alignment > 0
  {
    var skip := (alignment - start % alignment) % alignment;
    if space < size || skip > space - size then None else Some(start + skip)
  }

  /** An aligned address at or after `start`, less than one alignment away. */
  lemma SkipAligns(alignment: nat, start: nat)
    requires alignment > 0
    ensures var skip := (alignment - start % alignment) % alignment;
      0 <= skip < alignment && (start + skip) % alignment == 0
  {
    var q, r := start / alignment, start % alignment;
    assert start == q * alignment + r;
    if r == 0 {
      DivisionIsUnique(alignment - r, 1, 0, alignment);
    } else {
      DivisionIsUnique(alignment - r, 0, alignment - r, alignment);
      Distribute(q, 1, alignment);
      DivisionIsUnique(start + (alignment - r), q + 1, 0, alignment);
    }
  }

  /** Multiples of an alignment: of the base, and of every element after it. */
  lemma ElementAligned(start: nat, count: nat, bytes: nat, alignment: nat)
    requires alignment > 0 && start % alignment == 0 && bytes % alignment == 0
    ensures (start + count * bytes) % alignment == 0
  {
    var q := bytes / alignment;
    assert bytes == q * alignment;
    assert count * bytes == count * q * alignment;
    ModShift(start, count * q, alignment);
  }

  lemma AlignedForDivisor(start: nat, whole: nat, part: nat)
    requires whole > 0 && part > 0 && start % whole == 0 && whole % part == 0
    ensures start % part == 0
  {
    var q := start / whole;
    assert start == 0 + q * whole;
    ElementAligned(0, q, whole, part);
  }

  /** Once the checked arithmetic has succeeded, `std::align` succeeds too (so the second abort
      is dead), both regions lie in the block, they do not overlap, and every element of each is
      aligned. */
  lemma RegionsFit(base: nat, shapeSize: nat, stridesSize: nat, l: Layout, newAlign: nat)
    requires Proper(l, newAlign) && l.strideAlign <= SIZE_MAX && base % newAlign == 0
    requires CombinedBytes(shapeSize, stridesSize, l).Some?
    ensures var bytes := CombinedBytes(shapeSize, stridesSize, l).value;
      var shapeEnd := base + shapeSize * l.sizeBytes;
      var strides := Align(l.strideAlign, stridesSize * l.strideBytes, shapeEnd, bytes - shapeSize * l.sizeBytes);
      && strides.Some?
      && base <= shapeEnd <= strides.value
      && strides.value + stridesSize * l.strideBytes <= base + bytes
      && (forall i: nat :: (base + i * l.sizeBytes) % l.sizeAlign == 0)
      && (forall i: nat :: (strides.value + i * l.strideBytes) % l.strideAlign == 0)
  {
    hide CombinedBytes;
    CombinedBytesExactly(shapeSize, stridesSize, l);
    MulNonneg(shapeSize, l.sizeBytes);
    MulNonneg(stridesSize, l.strideBytes);
    var shapeEnd := base + shapeSize * l.sizeBytes;
    var start := shapeEnd + (l.strideAlign - shapeEnd % l.strideAlign) % l.strideAlign;
    SkipAligns(l.strideAlign, shapeEnd);
    AlignedForDivisor(base, newAlign, l.sizeAlign);
    forall i: nat ensures (base + i * l.sizeBytes) % l.sizeAlign == 0 {
      ElementAligned(base, i, l.sizeBytes, l.sizeAlign);
    }
    forall i: nat ensures (start + i * l.strideBytes) % l.strideAlign == 0 {
      ElementAligned(start, i, l.strideBytes, l.strideAlign);
    }
  }
}
