/** The best-fit range allocator. `Block` objects are shared between a tree ordered by
    address, which holds all of them, and a tree ordered by size, which holds the free ones. */
module ExternalAllocator {
  import opened Basics
  import opened BlockMap

  const TWO_TO_THE_64: int := 0x1_0000_0000_0000_0000
  type uint64 = x: int | 0 <= x < TWO_TO_THE_64

  lemma AtLeast(d: int, b: int)
    requires 1 <= d && 0 < b
    ensures b <= d * b
  {
    assert 0 <= (d - 1) * b;
  }

  lemma MultipleOf(q: nat, b: nat)
    requires 0 < b
    ensures q * b % b == 0
  {
    var x := q * b;
    var p := x / b;
    assert x == b * p + x % b;
    assert (q - p) * b == x - b * p && (p - q) * b == b * p - x;
    if p < q {
      AtLeast(q - p, b);
    } else if q < p {
      AtLeast(p - q, b);
    }
  }

  function RoundDown(a: uint64, b: uint64): (r: uint64)
    requires 0 < b
    ensures r <= a < r + b && r % b == 0
  {
    MultipleOf(a / b, b);
    assert a == a / b * b + a % b;
    a / b * b
  }

  function RoundUp(a: uint64, b: uint64): (r: uint64)
    requires 0 < b && a + b - 1 < TWO_TO_THE_64
    ensures a <= r < a + b && r % b == 0
  {
    RoundDown(a + b - 1, b)
  }

  /** RoundUp gives the least multiple: none lies between. */
  lemma LeastMultiple(a: uint64, b: uint64, p: int)
    requires 0 < b && a + b - 1 < TWO_TO_THE_64 && a <= p < RoundUp(a, b)
    ensures p % b != 0
  {
    var r := RoundUp(a, b);
    if p % b == 0 {
      assert p == p / b * b && r == r / b * b;
      assert (r / b - p / b) * b == r - p;
      AtLeast(r / b - p / b, b);
    }
  }

  /** Addition as 64-bit registers do it. */
  function Add64(a: uint64, b: uint64): uint64 {
    (a + b) % TWO_TO_THE_64
  }

  /** The test in AllocAt, in 64-bit arithmetic, accepts exactly the ranges inside the block,
      unless the end of the range wraps around to below the end of the block. */
  lemma GuardExact(ptr: uint64, size: uint64, adr: uint64, blockSize: uint64)
    requires adr + blockSize < TWO_TO_THE_64
    ensures ((adr <= ptr && Add64(ptr, size) <= Add64(adr, blockSize)) <==> (adr <= ptr && ptr + size <= adr + blockSize))
       <==> !(adr <= ptr && ptr + size >= TWO_TO_THE_64 && Add64(ptr, size) <= adr + blockSize)
  {
  }

  /** For instance: the range of all addresses but one is accepted in the first half of them. */
  lemma GuardAcceptsTooMuch()
    ensures Add64(1, 0xFFFF_FFFF_FFFF_FFFF) <= Add64(1, 0x7fff_ffff)
    ensures 1 + 0xFFFF_FFFF_FFFF_FFFF > 1 + 0x7fff_ffff
  {
  }

  /** The end of the range wraps around to below the end of the block that AllocAt looks at, and
      that block is free. */
  ghost predicate Misjudged(m: Blocks, ptr: uint64, size: uint64) {
    && ptr + size >= TWO_TO_THE_64
    && exists a :: a in m && ClosestBelow(m, a, ptr) && !m[a].used && Add64(ptr, size) <= m[a].End()
  }

  ghost predicate ClosestBelow(m: Blocks, a: int, ptr: int) {
    a <= ptr && forall b <- m :: b <= ptr ==> b <= a
  }

  class Allocator {
    // The address tree: every block, under its start address.
    var fAdrMap: Blocks
    // The size tree: for each block inside, named by its start address, the size under which
    // it was inserted. The tree finds its way by that size.
    var fSizeMap: map<int, int>
    var fTotalSize: uint64
    var fAllocSize: uint64
    // The registered range is [lo, hi).
    ghost var lo: int
    ghost var hi: int

    /** The size tree holds exactly the free blocks, each under its present size. */
    ghost predicate IndicesAgree()
      reads this
    {
      fSizeMap == FreeSizes(fAdrMap)
    }

    ghost predicate Valid()
      reads this
    {
      && 0 <= lo <= hi < TWO_TO_THE_64
      && Canonical(fAdrMap, lo, hi)
      && IndicesAgree()
      && fTotalSize == hi - lo
      && fAllocSize == Sum(Live(fAdrMap))
    }

    ghost function State(): PoolState
      reads this
    {
      PoolState(fAdrMap, fSizeMap, fTotalSize, fAllocSize)
    }

    /** What Valid says about the state does not depend on the object it is stored in. */
    lemma StateInOrder()
      requires Valid()
      ensures InOrder(State(), lo, hi)
    {
    }

    constructor ()
      ensures Valid() && fAdrMap == map[] && lo == hi == 0
    {
      fAdrMap, fSizeMap := map[], map[];
      fTotalSize, fAllocSize := 0, 0;
      lo, hi := 0, 0;
    }

    // ---------- searches ----------

    /** The block with the greatest start at or below `ptr`. */
    method FindClosestAdr(ptr: int) returns (block: Option<int>)
      ensures block.Some? ==> block.value in fAdrMap && block.value <= ptr
      ensures block.Some? ==> forall a <- fAdrMap :: a <= ptr ==> a <= block.value
      ensures block.None? ==> forall a <- fAdrMap :: ptr < a
    {
      block := None;
      var rest := fAdrMap.Keys;
      while rest != {}
        invariant rest <= fAdrMap.Keys
        invariant block.Some? ==> block.value in fAdrMap && block.value <= ptr
        invariant forall a :: a in fAdrMap && a !in rest && a <= ptr ==> block.Some? && a <= block.value
        decreases rest
      {
        HasMember(rest);
        var a :| a in rest;
        if a <= ptr && (block.None? || block.value < a) {
          block := Some(a);
        }
        rest := rest - {a};
      }
    }

    /** The block with the greatest start below that of `block`. */
    method Previous(block: int) returns (prev: Option<int>)
      ensures prev.Some? ==> prev.value in fAdrMap && prev.value < block
      ensures prev.Some? ==> forall a <- fAdrMap :: a < block ==> a <= prev.value
      ensures prev.None? ==> forall a <- fAdrMap :: block <= a
    {
      prev := FindClosestAdr(block - 1);
    }

    /** The block with the least start above that of `block`. */
    method Next(block: int) returns (next: Option<int>)
      ensures next.Some? ==> next.value in fAdrMap && block < next.value
      ensures next.Some? ==> forall a <- fAdrMap :: block < a ==> next.value <= a
      ensures next.None? ==> forall a <- fAdrMap :: a <= block
    {
      next := None;
      var rest := fAdrMap.Keys;
      while rest != {}
        invariant rest <= fAdrMap.Keys
        invariant next.Some? ==> next.value in fAdrMap && block < next.value
        invariant forall a :: a in fAdrMap && a !in rest && block < a ==> next.Some? && next.value <= a
        decreases rest
      {
        HasMember(rest);
        var a :| a in rest;
        if block < a && (next.None? || a < next.value) {
          next := Some(a);
        }
        rest := rest - {a};
      }
    }

    /** Some block of least sufficient size; which of several is not specified. */
    method FindClosestSize(size: int) returns (block: Option<int>)
      requires IndicesAgree()
      ensures block.Some? ==> BestFit(fAdrMap, block.value, size)
      ensures block.None? ==> !HasFreeBlock(fAdrMap, size)
    {
      block := None;
      var rest := fSizeMap.Keys;
      while rest != {}
        invariant rest <= fSizeMap.Keys
        invariant block.Some? ==> FreeBlock(fAdrMap, block.value, size)
        invariant forall a :: a !in rest && FreeBlock(fAdrMap, a, size) ==>
                    block.Some? && fAdrMap[block.value].size <= fAdrMap[a].size
        decreases rest
      {
        HasMember(rest);
        var a :| a in rest;
        if fSizeMap[a] >= size && (block.None? || fSizeMap[a] < fSizeMap[block.value]) {
          block := Some(a);
        }
        rest := rest - {a};
      }
    }

    // ---------- edits ----------

    method InsertAdr(block: int, size: uint64)
      requires block !in fAdrMap
      modifies `fAdrMap
      ensures fAdrMap == old(fAdrMap)[block := Extent(block, size, false)]
    {
      fAdrMap := fAdrMap[block := Extent(block, size, false)];
    }

    method InsertSize(block: int)
      requires block in fAdrMap && block !in fSizeMap
      modifies `fSizeMap
      ensures fSizeMap == old(fSizeMap)[block := fAdrMap[block].size]
    {
      fSizeMap := fSizeMap[block := fAdrMap[block].size];
    }

    method RemoveAdr(block: int)
      requires block in fAdrMap
      modifies `fAdrMap
      ensures fAdrMap == old(fAdrMap) - {block}
    {
      fAdrMap := fAdrMap - {block};
    }

    /** A block is found again only under the size it was inserted with. */
    method RemoveSize(block: int, size: int)
      requires block in fSizeMap && fSizeMap[block] == size
      modifies `fSizeMap
      ensures fSizeMap == old(fSizeMap) - {block}
    {
      fSizeMap := fSizeMap - {block};
    }

    /** A size changes only while the block is outside the size tree. */
    method SetSize(block: int, size: uint64)
      requires block in fAdrMap && block !in fSizeMap
      modifies `fAdrMap
      ensures fAdrMap == old(fAdrMap)[block := old(fAdrMap)[block].(size := size)]
    {
      fAdrMap := fAdrMap[block := fAdrMap[block].(size := size)];
    }

    // ---------- operations ----------

    method Register(ptr: uint64, size: uint64)
      requires Valid() && fAdrMap == map[] && lo == hi
      requires 0 < size && ptr + size < TWO_TO_THE_64
      modifies this
      ensures Valid()
      ensures lo == ptr && hi == ptr + size && Live(fAdrMap) == {}
    {
      InsertAdr(ptr, size);
      InsertSize(ptr);
      fTotalSize := fTotalSize + size;
      lo, hi := ptr, ptr + size;
      assert fAdrMap == Whole(lo, hi);
      WholeCanonical(lo, hi);
    }

    /** A new block takes over the part of the free block from `at` on. */
    method CutAt(block: int, at: uint64)
      requires IndicesAgree()
      requires block in fAdrMap && !fAdrMap[block].used && fAdrMap[block].adr == block
      requires 0 <= block < at < fAdrMap[block].End() < TWO_TO_THE_64 && at !in fAdrMap
      modifies `fAdrMap, `fSizeMap
      ensures IndicesAgree() && fAdrMap == Cut(old(fAdrMap), block, at)
    {
      InsertAdr(at, fAdrMap[block].size - (at - block));
      InsertSize(at);
      RemoveSize(block, fAdrMap[block].size);
      SetSize(block, at - block);
      InsertSize(block);
    }

    /** The same for a block that is already out of the size tree. */
    method CutTaken(block: int, at: uint64)
      requires block in fAdrMap && !fAdrMap[block].used && fAdrMap[block].adr == block
      requires fSizeMap == FreeSizes(fAdrMap) - {block}
      requires 0 <= block < at < fAdrMap[block].End() < TWO_TO_THE_64 && at !in fAdrMap
      modifies `fAdrMap, `fSizeMap
      ensures fAdrMap == Cut(old(fAdrMap), block, at) && fSizeMap == FreeSizes(fAdrMap) - {block}
    {
      InsertAdr(at, fAdrMap[block].size - (at - block));
      InsertSize(at);
      SetSize(block, at - block);
    }

    /** The end of every allocation: the block, cut to its size and out of the size tree, is
        marked and counted. `was` is the block map before, and `a` the block it came from. */
    method TakeIntoUse(block: int, ghost was: Blocks, ghost a: int)
      requires 0 <= lo <= hi < TWO_TO_THE_64 && Canonical(was, lo, hi)
      requires fTotalSize == hi - lo && fAllocSize == Sum(Live(was))
      requires block in fAdrMap && !fAdrMap[block].used && fSizeMap == FreeSizes(fAdrMap) - {block}
      requires CanCarve(was, a, block, fAdrMap[block].size)
      requires fAdrMap[block := fAdrMap[block].(used := true)] == Carve(was, a, block, fAdrMap[block].size)
      modifies `fAdrMap, `fAllocSize
      ensures Valid() && Live(fAdrMap) == Live(was) + {Extent(block, old(fAdrMap)[block].size, true)}
      ensures Extent(block, old(fAdrMap)[block].size, true) !in Live(was)
    {
      ghost var size := fAdrMap[block].size;
      CarveCanonical(was, lo, hi, a, block, size);
      UsedFreeSizes(fAdrMap, block);
      fAdrMap := fAdrMap[block := fAdrMap[block].(used := true)];
      BoundedByRange(fAdrMap, lo, hi);
      SumAdd(Live(was), Extent(block, size, true));
      fAllocSize := fAllocSize + fAdrMap[block].size;
    }

    method Alloc(size: uint64) returns (ok: bool, ptr: uint64)
      requires Valid() && 0 < size
      modifies this
      ensures Valid() && lo == old(lo) && hi == old(hi)
      ensures ok <==> exists p :: FreeRange(old(fAdrMap), p, size)
      ensures ok ==> BestFit(old(fAdrMap), ptr, size)
      ensures ok ==> ptr in old(fAdrMap) && !old(fAdrMap)[ptr].used && size <= old(fAdrMap)[ptr].size
      ensures ok ==> forall b <- old(fAdrMap) :: !old(fAdrMap)[b].used && size <= old(fAdrMap)[b].size ==>
                old(fAdrMap)[ptr].size <= old(fAdrMap)[b].size
      ensures Live(fAdrMap) == old(Live(fAdrMap)) + if ok then {Extent(ptr, size, true)} else {}
      ensures ok ==> Extent(ptr, size, true) !in old(Live(fAdrMap))
    {
      var found := FindClosestSize(size);
      if found.None? {
        FreeRunIffBlock(fAdrMap, lo, hi, size);
        return false, 0;
      }
      var block := found.value;
      ghost var was := fAdrMap;
      NoStartInside(was, lo, hi, block);
      CarvableIsFree(was, block, block, size);
      RemoveSize(block, fAdrMap[block].size);
      if fAdrMap[block].size > size {
        CutTaken(block, block + size);
      }
      TakeIntoUse(block, was, block);
      return true, block;
    }

    /** The search and the test at the start of AllocAt, in 64-bit arithmetic: a block is found
        exactly if the range is free or is misjudged. */
    method FindFreeAround(ptr: uint64, size: uint64) returns (block: Option<int>)
      requires Valid() && 0 < size
      ensures block.Some? <==> FreeRange(fAdrMap, ptr, size) || Misjudged(fAdrMap, ptr, size)
      ensures block.Some? && !Misjudged(fAdrMap, ptr, size) ==> CanCarve(fAdrMap, block.value, ptr, size)
    {
      block := FindClosestAdr(ptr);
      if block.None? || fAdrMap[block.value].used
         || !(ptr >= block.value && Add64(ptr, size) <= Add64(block.value, fAdrMap[block.value].size)) {
        AllocAtRefused(ptr, size, block);
        return None;
      }
      assert ClosestBelow(fAdrMap, block.value, ptr);
      if ptr + size < TWO_TO_THE_64 {
        CarvableIsFree(fAdrMap, block.value, ptr, size);
      }
    }

    lemma AllocAtRefused(ptr: uint64, size: uint64, found: Option<int>)
      requires Valid() && 0 < size
      requires found.Some? ==> found.value in fAdrMap && found.value <= ptr
      requires found.Some? ==> forall a <- fAdrMap :: a <= ptr ==> a <= found.value
      requires found.None? ==> forall a <- fAdrMap :: ptr < a
      requires found.Some? ==> fAdrMap[found.value].used || found.value + fAdrMap[found.value].size < ptr + size
      ensures !FreeRange(fAdrMap, ptr, size)
    {
      if FreeRange(fAdrMap, ptr, size) {
        assert FreeAddress(fAdrMap, ptr);
        var a :| a in fAdrMap && !fAdrMap[a].used && fAdrMap[a].Covers(ptr);
        assert Placed(fAdrMap, lo, hi, a);
        CoveredByOne(fAdrMap, lo, hi, a, ptr, size);
      }
    }

    method AllocAt(ptr: uint64, size: uint64) returns (ok: bool)
      requires Valid() && 0 < size && !Misjudged(fAdrMap, ptr, size)
      modifies this
      ensures Valid() && lo == old(lo) && hi == old(hi)
      ensures ok <==> FreeRange(old(fAdrMap), ptr, size)
      ensures Live(fAdrMap) == old(Live(fAdrMap)) + if ok then {Extent(ptr, size, true)} else {}
      ensures ok ==> Extent(ptr, size, true) !in old(Live(fAdrMap))
    {
      var found := FindFreeAround(ptr, size);
      if found.None? {
        return false;
      }
      var block := found.value;
      ghost var was, a := fAdrMap, block;
      NoStartInside(was, lo, hi, a);
      if block < ptr {
        CutAt(block, ptr);
        block := ptr;
      }
      if fAdrMap[block].size > size {
        CutAt(block, ptr + size);
      }
      RemoveSize(block, fAdrMap[block].size);
      TakeIntoUse(block, was, a);
      return true;
    }

    /** RoundUp puts the aligned range inside the block that was found for it. */
    lemma AlignedInside(a: uint64, end: uint64, size: uint64, align: uint64)
      requires 0 < size && 0 < align && a + size + (align - 1) <= end
      ensures a + align - 1 < TWO_TO_THE_64
      ensures a <= RoundUp(a, align) && RoundUp(a, align) + size <= end
    {
    }

    method AllocAligned(size: uint64, align: uint64) returns (ok: bool, ptr: uint64)
      requires Valid() && 0 < size && 0 < align && size + (align - 1) < TWO_TO_THE_64
      modifies this
      ensures Valid() && lo == old(lo) && hi == old(hi)
      ensures ok <==> HasFreeBlock(old(fAdrMap), size + (align - 1))
      ensures ok ==> ptr % align == 0
      ensures ok ==> FromBestFit(old(fAdrMap), size + (align - 1), ptr, size)
      ensures ok ==> exists a ::
                && a in old(fAdrMap) && BestFit(old(fAdrMap), a, size + (align - 1))
                && a <= ptr < a + align && ptr + size <= a + old(fAdrMap)[a].size
                && forall p :: a <= p < ptr ==> p % align != 0
      ensures Live(fAdrMap) == old(Live(fAdrMap)) + if ok then {Extent(ptr, size, true)} else {}
      ensures ok ==> Extent(ptr, size, true) !in old(Live(fAdrMap))
    {
      var found := FindClosestSize(size + (align - 1));
      if found.None? {
        return false, 0;
      }
      var block := found.value;
      AlignedInside(block, fAdrMap[block].End(), size, align);
      ptr := RoundUp(block, align);
      CarvableIsFree(fAdrMap, block, ptr, size);
      forall p | block <= p < ptr ensures p % align != 0 { LeastMultiple(block, align, p); }
      ok := AllocAt(ptr, size);
    }

    /** False stands for the abort on a pointer that is not the start of an allocation. */
    method Free(ptr: uint64) returns (ok: bool)
      requires Valid()
      modifies this
      ensures Valid() && lo == old(lo) && hi == old(hi)
      ensures ok <==> LiveStartsAt(old(fAdrMap), ptr)
      ensures ok ==> ptr in old(fAdrMap) && Live(fAdrMap) == old(Live(fAdrMap)) - {old(fAdrMap)[ptr]}
      ensures !ok ==> fAdrMap == old(fAdrMap)
    {
      LiveAt(fAdrMap, lo, hi, ptr);
      if ptr !in fAdrMap || !fAdrMap[ptr].used {
        return false;
      }
      var block := TakeOutOfUse(ptr);
      block := JoinPrevious(block);
      JoinNext(block);
      return true;
    }

    /** The start of Free: the block is free again and back in the size tree. */
    method TakeOutOfUse(ptr: int) returns (block: int)
      requires Valid() && ptr in fAdrMap && fAdrMap[ptr].used
      modifies `fAdrMap, `fSizeMap, `fAllocSize
      ensures block == ptr && fAdrMap == Marked(old(fAdrMap), ptr)
      ensures Tiles(fAdrMap, lo, hi) && CoalescedExceptAt(fAdrMap, block) && IndicesAgree()
      ensures Live(fAdrMap) == old(Live(fAdrMap)) - {old(fAdrMap)[ptr]}
      ensures fAllocSize == Sum(Live(fAdrMap))
    {
      ghost var was := fAdrMap;
      MarkedKeeps(was, lo, hi, ptr);
      MarkedFreeSizes(was, ptr);
      assert was[ptr] in Live(was);
      SumRemove(Live(was), was[ptr]);
      block := ptr;
      InsertSize(block);
      fAdrMap := fAdrMap[block := fAdrMap[block].(used := false)];
      BoundedByRange(fAdrMap, lo, hi);
      fAllocSize := fAllocSize - fAdrMap[block].size;
    }

    /** The free block `left` takes over the free block that follows it. */
    method Absorb(left: int, right: int)
      requires IndicesAgree() && 0 <= lo <= hi < TWO_TO_THE_64 && Tiles(fAdrMap, lo, hi)
      requires left in fAdrMap && right in fAdrMap && right == fAdrMap[left].End()
      requires !fAdrMap[left].used && !fAdrMap[right].used
      modifies `fAdrMap, `fSizeMap
      ensures IndicesAgree() && fAdrMap == Join(old(fAdrMap), left)
    {
      JoinFreeSizes(fAdrMap, left);
      var size := fAdrMap[right].size;
      RemoveSize(left, fAdrMap[left].size);
      SetSize(left, fAdrMap[left].size + size);
      RemoveAdr(right);
      RemoveSize(right, size);
      InsertSize(left);
    }

    /** Free, first half: join with the left neighbour if that is free. */
    method JoinPrevious(block: int) returns (joined: int)
      requires IndicesAgree() && 0 <= lo <= hi < TWO_TO_THE_64
      requires Tiles(fAdrMap, lo, hi) && CoalescedExceptAt(fAdrMap, block)
      requires block in fAdrMap && !fAdrMap[block].used
      modifies `fAdrMap, `fSizeMap
      ensures IndicesAgree()
      ensures Tiles(fAdrMap, lo, hi) && CoalescedExceptAt(fAdrMap, joined)
      ensures joined in fAdrMap && !fAdrMap[joined].used && ClosedOnTheLeft(fAdrMap, joined)
      ensures Live(fAdrMap) == old(Live(fAdrMap))
    {
      joined := block;
      var prev := Previous(block);
      PreviousTouches(fAdrMap, lo, hi, block, prev);
      if prev.Some? && !fAdrMap[prev.value].used {
        JoinLeftKeeps(fAdrMap, lo, hi, prev.value);
        Absorb(prev.value, block);
        joined := prev.value;
      }
    }

    /** Free, second half: join with the right neighbour if that is free. */
    method JoinNext(block: int)
      requires IndicesAgree() && 0 <= lo <= hi < TWO_TO_THE_64
      requires Tiles(fAdrMap, lo, hi) && CoalescedExceptAt(fAdrMap, block)
      requires block in fAdrMap && !fAdrMap[block].used && ClosedOnTheLeft(fAdrMap, block)
      modifies `fAdrMap, `fSizeMap
      ensures IndicesAgree() && Canonical(fAdrMap, lo, hi)
      ensures Live(fAdrMap) == old(Live(fAdrMap))
    {
      var next := Next(block);
      NextTouches(fAdrMap, lo, hi, block, next);
      if next.Some? && !fAdrMap[next.value].used {
        JoinRightKeeps(fAdrMap, lo, hi, block);
        Absorb(block, next.value);
      } else {
        NothingToJoin(fAdrMap, lo, hi, block);
      }
    }
  }
}
