/** The free store that the vectors and the metadata storage allocate from: live blocks by
    address, each with the cells it was allocated with.  A cell may be uninitialised. */
module HeapMemory {
  import opened Wrappers

  type Addr = nat // 0 is the null pointer

  datatype Cell<+T> = Uninit | Val(v: T)

  /** `raw` blocks come from `operator new`, the others from a `std::allocator`. */
  datatype Block<+T> = Block(cells: seq<Cell<T>>, raw: bool)

  type Blocks<T> = map<Addr, Block<T>>

  function Blank<T>(n: nat): (cells: seq<Cell<T>>)
    ensures |cells| == n && forall i :: 0 <= i < n ==> cells[i] == Uninit
  {
    if n == 0 then [] else Blank(n - 1) + [Uninit]
  }

  ghost predicate Filled<T>(cells: seq<Cell<T>>, n: nat) {
    n <= |cells| && forall i :: 0 <= i < n ==> cells[i].Val?
  }

  function Values<T>(cells: seq<Cell<T>>, n: nat): (values: seq<T>)
    requires Filled(cells, n)
    ensures |values| == n && forall i :: 0 <= i < n ==> values[i] == cells[i].v
  {
    if n == 0 then [] else Values(cells, n - 1) + [cells[n - 1].v]
  }

  lemma ValuesAre<T>(cells: seq<Cell<T>>, values: seq<T>)
    requires |values| <= |cells| && forall j :: 0 <= j < |values| ==> cells[j] == Val(values[j])
    ensures Filled(cells, |values|) && Values(cells, |values|) == values
  {}

  /** What an operation may do to memory when its objects owned `gave` before and own `holds`
      after: free blocks they owned, take fresh ones, and leave every other block as it was. */
  ghost predicate Footprint<T>(before: Blocks<T>, after: Blocks<T>, gave: set<Addr>, holds: set<Addr>) {
    && after.Keys == before.Keys - gave + holds
    && (forall a :: a in before && a !in gave ==> after[a] == before[a])
    && (holds - gave) !! before.Keys
  }

  /** Doing one thing after another; the second may reuse an address the first freed. */
  lemma FootprintsCompose<T>(start: Blocks<T>, mid: Blocks<T>, end: Blocks<T>, o0: set<Addr>, o1: set<Addr>,
                             o2: set<Addr>)
    requires Footprint(start, mid, o0, o1) && Footprint(mid, end, o1, o2)
    requires o0 <= start.Keys
    ensures Footprint(start, end, o0, o2)
  {
    assert forall a :: a in start && a !in o0 ==> a in mid && a !in o1;
  }

  /** Blocks that only change hands. */
  lemma KeepsBlocks<T>(blocks: Blocks<T>, owned: set<Addr>)
    requires owned <= blocks.Keys
    ensures Footprint(blocks, blocks, owned, owned)
  {}

  lemma GivesUp<T>(blocks: Blocks<T>, owned: set<Addr>)
    requires owned <= blocks.Keys
    ensures Footprint(blocks, blocks - owned, owned, {})
  {}

  lemma GivenBack<T>(before: Blocks<T>, after: Blocks<T>, taken: set<Addr>)
    requires Footprint(before, after, {}, taken)
    ensures after - taken == before
  {}

  /** Fresh blocks leave the others alone. */
  lemma Untouched<T>(before: Blocks<T>, after: Blocks<T>, taken: set<Addr>, owned: set<Addr>)
    requires Footprint(before, after, {}, taken) && owned <= before.Keys
    ensures owned !! taken && forall a :: a in owned ==> a in after && after[a] == before[a]
  {}

  /** Fresh blocks together with some that were there. */
  lemma TakesOver<T>(before: Blocks<T>, after: Blocks<T>, taken: set<Addr>, owned: set<Addr>)
    requires Footprint(before, after, {}, taken) && owned <= before.Keys
    ensures Footprint(before, after, owned, owned + taken) && owned !! taken
  {}

  lemma {:induction false} AllBelow(addresses: set<Addr>) returns (end: Addr)
    ensures forall a :: a in addresses ==> a < end
    decreases |addresses|
  {
    end := 0;
    if addresses != {} {
      var a :| a in addresses;
      var rest := AllBelow(addresses - {a});
      end := if a < rest then rest else a + 1;
      assert forall x :: x in addresses ==> x == a || x in addresses - {a};
    }
  }

  /** There is always an address left. */
  lemma AnAddressIsFree<T>(blocks: Blocks<T>)
    ensures exists a: Addr :: a != 0 && a !in blocks
  {
    var end := AllBelow(blocks.Keys);
    assert end + 1 !in blocks;
  }

  class Memory<T> {
    const maxSize: nat
    var blocks: Blocks<T>

    constructor (maxSize: nat)
      ensures this.maxSize == maxSize && blocks == map[]
    {
      this.maxSize, blocks := maxSize, map[];
    }

    /** The store answers at a fresh address, or not at all. */
    predicate Answers(at: Option<Addr>)
      reads this
    {
      at.Some? ==> at.value != 0 && at.value !in blocks
    }

    /** A `std::allocator` refuses more than `maxSize` elements. */
    predicate Grants(n: nat, at: Option<Addr>)
      reads this
    {
      Answers(at) && (at.Some? ==> n <= maxSize)
    }

    /** An answer to a request for `n` elements: a fresh address if the store has memory left and
        the request is not too large. */
    predicate Offers(n: nat, granted: bool, at: Option<Addr>)
      reads this
    {
      Grants(n, at) && (at.Some? <==> granted && n <= maxSize)
    }

    lemma AnOffer(n: nat, granted: bool)
      ensures exists at: Option<Addr> :: Offers(n, granted, at)
    {
      AnAddressIsFree(blocks);
      var a: Addr :| a != 0 && a !in blocks;
      assert Offers(n, granted, if granted && n <= maxSize then Some(a) else None);
    }

    method Allocate(n: nat, at: Option<Addr>) returns (ok: bool)
      requires Grants(n, at)
      modifies this
      ensures ok == at.Some?
      ensures blocks == if at.Some? then old(blocks)[at.value := Block(Blank(n), false)] else old(blocks)
    {
      if at.Some? {
        blocks := blocks[at.value := Block(Blank(n), false)];
      }
      return at.Some?;
    }

    /** The caller states the capacity the block was allocated with. */
    method Deallocate(a: Addr, capacity: nat)
      requires a in blocks && !blocks[a].raw && |blocks[a].cells| == capacity
      modifies this
      ensures blocks == old(blocks) - {a}
    {
      blocks := blocks - {a};
    }

    /** Room for `n` elements of either kind. */
    method OperatorNew(n: nat, at: Option<Addr>) returns (ok: bool)
      requires Answers(at)
      modifies this
      ensures ok == at.Some?
      ensures blocks == if at.Some? then old(blocks)[at.value := Block(Blank(n), true)] else old(blocks)
    {
      if at.Some? {
        blocks := blocks[at.value := Block(Blank(n), true)];
      }
      return at.Some?;
    }

    method OperatorDelete(a: Addr)
      requires a in blocks && blocks[a].raw
      modifies this
      ensures blocks == old(blocks) - {a}
    {
      blocks := blocks - {a};
    }

    method Write(a: Addr, i: nat, v: T)
      requires a in blocks && i < |blocks[a].cells|
      modifies this
      ensures blocks == old(blocks)[a := old(blocks)[a].(cells := old(blocks)[a].cells[i := Val(v)])]
    {
      blocks := blocks[a := blocks[a].(cells := blocks[a].cells[i := Val(v)])];
    }

    /** Only live, initialised cells can be read. */
    function Read(a: Addr, i: nat): T
      requires a in blocks && i < |blocks[a].cells| && blocks[a].cells[i].Val?
      reads this
    {
      blocks[a].cells[i].v
    }

    /** Cells of block `a` from `from` on become `values`, the others keep what they hold. */
    method WriteRange(a: Addr, from: nat, values: seq<T>)
      requires a in blocks && from + |values| <= |blocks[a].cells|
      modifies this
      ensures a in blocks && blocks == old(blocks)[a := blocks[a]]
      ensures blocks[a].raw == old(blocks)[a].raw && |blocks[a].cells| == |old(blocks)[a].cells|
      ensures forall j :: from <= j < from + |values| ==> blocks[a].cells[j] == Val(values[j - from])
      ensures forall j :: 0 <= j < from || from + |values| <= j < |blocks[a].cells| ==>
        blocks[a].cells[j] == old(blocks)[a].cells[j]
    {
      for k := 0 to |values|
        invariant a in blocks && blocks == old(blocks)[a := blocks[a]]
        invariant blocks[a].raw == old(blocks)[a].raw && |blocks[a].cells| == |old(blocks)[a].cells|
        invariant forall j :: from <= j < from + k ==> blocks[a].cells[j] == Val(values[j - from])
        invariant forall j :: 0 <= j < from || from + k <= j < |blocks[a].cells| ==>
          blocks[a].cells[j] == old(blocks)[a].cells[j]
      {
        Write(a, from + k, values[k]);
      }
    }
  }
}
