/** What the allocator's blocks mean, apart from how the two trees store them. A block map
    gives, for every address at which a block starts, that block's extent. */
module BlockMap {
  import opened Basics

  datatype Extent = Extent(adr: int, size: int, used: bool) {
    function End(): int { adr + size }
    predicate Covers(x: int) { adr <= x < End() }
  }

  type Blocks = map<int, Extent>

  /** The block at a has its place in [lo, hi): it overlaps no later block, it ends at hi
      or where another block starts, and it starts at lo or where another block ends. */
  ghost predicate Placed(m: Blocks, lo: int, hi: int, a: int)
    requires a in m
  {
    && (forall b <- m :: a < b ==> m[a].End() <= b)
    && (m[a].End() == hi || m[a].End() in m)
    && HasPrevious(m, lo, a)
  }

  ghost predicate HasPrevious(m: Blocks, lo: int, a: int) {
    a == lo || exists p :: p in m && m[p].End() == a
  }

  /** The blocks are non-empty and cover [lo, hi) without gaps or overlaps. */
  ghost predicate Tiles(m: Blocks, lo: int, hi: int) {
    && lo <= hi
    && (lo < hi ==> lo in m)
    && (forall a <- m :: m[a].adr == a && m[a].size > 0 && lo <= a && m[a].End() <= hi)
    && (forall a {:trigger Placed(m, lo, hi, a)} :: a in m ==> Placed(m, lo, hi, a))
  }

  /** Of two touching blocks, neither of which starts at x, at least one is in use. */
  ghost predicate CoalescedExceptAt(m: Blocks, x: int) {
    forall a, b {:trigger m[a], m[b]} :: a in m && b in m && m[a].End() == b && a != x && b != x ==> m[a].used || m[b].used
  }

  ghost predicate Coalesced(m: Blocks) {
    forall a, b {:trigger m[a], m[b]} :: a in m && b in m && m[a].End() == b ==> m[a].used || m[b].used
  }

  /** The invariant of the allocator: a gapless tiling in which no two free blocks touch. */
  ghost predicate Canonical(m: Blocks, lo: int, hi: int) {
    Tiles(m, lo, hi) && Coalesced(m)
  }

  /** The allocations that are outstanding. */
  ghost function Live(m: Blocks): set<Extent> {
    set a | a in m && m[a].used :: m[a]
  }

  lemma LiveIff(m: Blocks, lo: int, hi: int, e: Extent)
    requires Tiles(m, lo, hi)
    ensures e in Live(m) <==> e.used && e.adr in m && m[e.adr] == e
  {
  }

  ghost predicate LiveStartsAt(m: Blocks, ptr: int) {
    exists e :: e in Live(m) && e.adr == ptr
  }

  lemma LiveAt(m: Blocks, lo: int, hi: int, ptr: int)
    requires Tiles(m, lo, hi)
    ensures LiveStartsAt(m, ptr) <==> ptr in m && m[ptr].used
  {
    if ptr in m && m[ptr].used {
      assert m[ptr] in Live(m);
    }
  }

  ghost predicate FreeAddress(m: Blocks, x: int) {
    exists a :: a in m && !m[a].used && m[a].Covers(x)
  }

  /** Every address of [ptr, ptr + size) is inside the range and free. */
  ghost predicate FreeRange(m: Blocks, ptr: int, size: int) {
    forall x :: ptr <= x < ptr + size ==> FreeAddress(m, x)
  }

  ghost predicate FreeBlock(m: Blocks, a: int, size: int) {
    a in m && !m[a].used && m[a].size >= size
  }

  ghost predicate HasFreeBlock(m: Blocks, size: int) {
    exists a :: FreeBlock(m, a, size)
  }

  /** The block at a is a smallest free one of at least `size`. */
  ghost predicate BestFit(m: Blocks, a: int, size: int) {
    && FreeBlock(m, a, size)
    && forall b :: FreeBlock(m, b, size) ==> m[a].size <= m[b].size
  }

  /** What the size tree has to hold: the size of every free block. */
  ghost function FreeSizes(m: Blocks): map<int, int> {
    map a | a in m && !m[a].used :: m[a].size
  }

  // ---------- the block map is determined by the allocations ----------

  /** Blocks that share an address are the same block. */
  lemma SameBlock(m: Blocks, lo: int, hi: int, a: int, b: int, x: int)
    requires Tiles(m, lo, hi) && a in m && b in m && m[a].Covers(x) && m[b].Covers(x)
    ensures a == b
  {
    assert Placed(m, lo, hi, a) && Placed(m, lo, hi, b);
  }

  /** A free block cannot end inside a free block of the other map: what follows it is in
      use, so it would be in use in the other map too. */
  lemma FreeBlockNotShorter(m: Blocks, n: Blocks, lo: int, hi: int, a: int)
    requires Canonical(m, lo, hi) && Canonical(n, lo, hi) && Live(m) == Live(n)
    requires a in m && a in n && !m[a].used && !n[a].used
    ensures m[a].size >= n[a].size
  {
    assert Placed(m, lo, hi, a) && Placed(n, lo, hi, a);
    var end := m[a].End();
    if end in m {
      assert m[end].used;
      assert m[end] in Live(m);
    }
  }

  lemma SameExtent(m: Blocks, n: Blocks, lo: int, hi: int, a: int)
    requires Canonical(m, lo, hi) && Canonical(n, lo, hi) && Live(m) == Live(n)
    requires a in m && a in n
    ensures m[a] == n[a]
  {
    if m[a].used {
      assert m[a] in Live(n);
    } else if n[a].used {
      assert n[a] in Live(m);
    } else {
      FreeBlockNotShorter(m, n, lo, hi, a);
      FreeBlockNotShorter(n, m, lo, hi, a);
    }
  }

  /** Walking up from lo, the two maps stay together. */
  lemma {:induction false} SameStart(m: Blocks, n: Blocks, lo: int, hi: int, a: int)
    requires Canonical(m, lo, hi) && Canonical(n, lo, hi) && Live(m) == Live(n)
    requires a in m
    ensures a in n && m[a] == n[a]
    decreases a - lo
  {
    if a != lo {
      assert Placed(m, lo, hi, a);
      var p :| p in m && m[p].End() == a;
      SameStart(m, n, lo, hi, p);
      assert Placed(n, lo, hi, p);
    }
    SameExtent(m, n, lo, hi, a);
  }

  /** The registered range and the outstanding allocations determine the whole block map. */
  lemma CanonicalUnique(m: Blocks, n: Blocks, lo: int, hi: int)
    requires Canonical(m, lo, hi) && Canonical(n, lo, hi)
    ensures m == n <==> Live(m) == Live(n)
  {
    if Live(m) == Live(n) {
      forall a | a in m ensures a in n && m[a] == n[a] { SameStart(m, n, lo, hi, a); }
      forall a | a in n ensures a in m && m[a] == n[a] { SameStart(n, m, lo, hi, a); }
    }
  }

  ghost function Whole(lo: int, hi: int): Blocks {
    map[lo := Extent(lo, hi - lo, false)]
  }

  lemma WholeCanonical(lo: int, hi: int)
    requires lo < hi
    ensures Canonical(Whole(lo, hi), lo, hi) && Live(Whole(lo, hi)) == {}
  {
    assert Placed(Whole(lo, hi), lo, hi, lo);
  }

  /** With nothing allocated the map is the one free block that Register made. */
  lemma EmptyPool(m: Blocks, lo: int, hi: int)
    requires Canonical(m, lo, hi) && lo < hi
    ensures Live(m) == {} <==> m == Whole(lo, hi)
  {
    WholeCanonical(lo, hi);
    CanonicalUnique(m, Whole(lo, hi), lo, hi);
  }

  /** Every address of the range lies in some block, found by walking right from `a`. */
  lemma {:induction false} InSomeBlock(m: Blocks, lo: int, hi: int, a: int, x: int)
    requires Tiles(m, lo, hi) && a in m && a <= x < hi
    ensures exists b :: b in m && m[b].Covers(x)
    decreases hi - a
  {
    if x < m[a].End() {
      assert m[a].Covers(x);
    } else {
      assert Placed(m, lo, hi, a);
      InSomeBlock(m, lo, hi, m[a].End(), x);
    }
  }

  /** The free addresses are those of the range that no outstanding allocation covers. */
  lemma FreeIffNotLive(m: Blocks, lo: int, hi: int, x: int)
    requires Tiles(m, lo, hi)
    ensures FreeAddress(m, x) <==> lo <= x < hi && forall e <- Live(m) :: !e.Covers(x)
  {
    if FreeAddress(m, x) {
      var a :| a in m && !m[a].used && m[a].Covers(x);
      forall e | e in Live(m) ensures !e.Covers(x) {
        if e.Covers(x) { SameBlock(m, lo, hi, a, e.adr, x); }
      }
    }
    if lo <= x < hi {
      InSomeBlock(m, lo, hi, lo, x);
      var b :| b in m && m[b].Covers(x);
      assert m[b].used ==> m[b] in Live(m);
    }
  }

  /** A range is free exactly if it is registered and overlaps no outstanding allocation. */
  lemma FreeRangeIff(m: Blocks, lo: int, hi: int, ptr: int, size: int)
    requires Tiles(m, lo, hi) && 0 < size
    ensures FreeRange(m, ptr, size) <==>
              && lo <= ptr && ptr + size <= hi
              && forall a <- m :: m[a].used ==> a + m[a].size <= ptr || ptr + size <= a
  {
    if FreeRange(m, ptr, size) {
      assert FreeAddress(m, ptr) && FreeAddress(m, ptr + size - 1);
      FreeIffNotLive(m, lo, hi, ptr);
      FreeIffNotLive(m, lo, hi, ptr + size - 1);
      forall a | a in m && m[a].used ensures a + m[a].size <= ptr || ptr + size <= a {
        var x := if ptr <= a then a else ptr;
        if x < ptr + size {
          assert FreeAddress(m, x);
          FreeIffNotLive(m, lo, hi, x);
          assert m[a] in Live(m);
        }
      }
    } else {
      var x :| ptr <= x < ptr + size && !FreeAddress(m, x);
      FreeIffNotLive(m, lo, hi, x);
    }
  }

  // ---------- coalescing makes allocation complete ----------

  /** A run of free addresses lies within the block that holds its first address. */
  lemma CoveredByOne(m: Blocks, lo: int, hi: int, a: int, ptr: int, size: int)
    requires Canonical(m, lo, hi) && size > 0 && FreeRange(m, ptr, size)
    requires a in m && m[a].Covers(ptr)
    ensures !m[a].used && ptr + size <= m[a].End()
  {
    assert FreeAddress(m, ptr);
    var c :| c in m && !m[c].used && m[c].Covers(ptr);
    SameBlock(m, lo, hi, a, c, ptr);
    assert Placed(m, lo, hi, a);
    var x := if m[a].End() < ptr + size then m[a].End() else ptr;
    assert FreeAddress(m, x);
    var b :| b in m && !m[b].used && m[b].Covers(x);
    assert Placed(m, lo, hi, b);
  }

  /** A run of free addresses exists exactly when some free block is long enough. */
  lemma FreeRunIffBlock(m: Blocks, lo: int, hi: int, size: int)
    requires Canonical(m, lo, hi) && size > 0
    ensures (exists ptr :: FreeRange(m, ptr, size)) <==> HasFreeBlock(m, size)
  {
    if ptr :| FreeRange(m, ptr, size) {
      assert FreeAddress(m, ptr);
      var a :| a in m && !m[a].used && m[a].Covers(ptr);
      CoveredByOne(m, lo, hi, a, ptr, size);
      assert FreeBlock(m, a, size);
    }
    if a :| FreeBlock(m, a, size) {
      assert forall x :: a <= x < a + size ==> m[a].Covers(x);
      assert FreeRange(m, a, size);
    }
  }

  // ---------- the allocated size ----------

  ghost function Sum(s: set<Extent>): int
    decreases s
  {
    if s == {} then 0 else var e :| e in s; e.size + Sum(s - {e})
  }

  lemma {:induction false} SumRemove(s: set<Extent>, x: Extent)
    requires x in s
    ensures Sum(s) == x.size + Sum(s - {x})
    decreases s
  {
    var e :| e in s && Sum(s) == e.size + Sum(s - {e});
    if e != x {
      SumRemove(s - {e}, x);
      SumRemove(s - {x}, e);
      assert s - {e} - {x} == s - {x} - {e};
    }
  }

  lemma SumAdd(s: set<Extent>, x: Extent)
    requires x !in s
    ensures Sum(s + {x}) == Sum(s) + x.size
  {
    SumRemove(s + {x}, x);
    assert s + {x} - {x} == s;
  }

  /** Allocations below `top` add up to no more than what lies below `top`. */
  lemma {:induction false} SumBelow(m: Blocks, lo: int, hi: int, s: set<Extent>, top: int)
    requires Tiles(m, lo, hi) && s <= Live(m) && lo <= top
    requires forall e <- s :: e.End() <= top
    ensures 0 <= Sum(s) <= top - lo
    decreases s
  {
    if s != {} {
      var last := Topmost(s);
      SumRemove(s, last);
      forall e | e in s - {last} ensures e.End() <= last.adr {
        assert m[e.adr] == e && m[last.adr] == last;
        assert Placed(m, lo, hi, e.adr);
      }
      SumBelow(m, lo, hi, s - {last}, last.adr);
    }
  }

  lemma {:induction false} Topmost(s: set<Extent>) returns (last: Extent)
    requires s != {}
    ensures last in s && forall e <- s :: e.adr <= last.adr
    decreases s
  {
    last :| last in s;
    if s != {last} {
      var other := Topmost(s - {last});
      assert forall e <- s :: e == last || e in s - {last};
      if last.adr < other.adr { last := other; }
    }
  }

  lemma BoundedByRange(m: Blocks, lo: int, hi: int)
    requires Tiles(m, lo, hi)
    ensures 0 <= Sum(Live(m)) <= hi - lo
  {
    SumBelow(m, lo, hi, Live(m), hi);
  }

  // ---------- allocation ----------

  ghost predicate CanCarve(m: Blocks, a: int, ptr: int, size: int) {
    a in m && m[a].adr == a && !m[a].used && a <= ptr && 0 < size && ptr + size <= m[a].End()
  }

  /** The block at a cut in two at `at`, both parts free. */
  ghost function Cut(m: Blocks, a: int, at: int): Blocks
    requires a in m
  {
    m[a := Extent(a, at - a, false)][at := Extent(at, m[a].End() - at, false)]
  }

  lemma CutTiles(m: Blocks, lo: int, hi: int, a: int, at: int)
    requires Tiles(m, lo, hi) && a in m && a < at < m[a].End()
    ensures Tiles(Cut(m, a, at), lo, hi) && at !in m
  {
    assert Placed(m, lo, hi, a);
    forall b | b in Cut(m, a, at) ensures Placed(Cut(m, a, at), lo, hi, b) {
      CutPlaced(m, lo, hi, a, at, b);
    }
  }

  lemma CutPlaced(m: Blocks, lo: int, hi: int, a: int, at: int, b: int)
    requires Tiles(m, lo, hi) && a in m && a < at < m[a].End() && b in Cut(m, a, at)
    ensures Placed(Cut(m, a, at), lo, hi, b)
  {
    var n := Cut(m, a, at);
    assert Placed(m, lo, hi, a) && Placed(m, lo, hi, if b == at then a else b);
    if b == at {
      assert n[a].End() == at;
    } else if b != lo {
      var p :| p in m && m[p].End() == b;
      assert n[if p == a then at else p].End() == b;
    }
  }

  ghost function CutIf(m: Blocks, a: int, at: int): (n: Blocks)
    requires a in m
    ensures a in n
  {
    if a < at < m[a].End() then Cut(m, a, at) else m
  }

  /** [ptr, ptr + size) taken out of the free block at a, the rest left free. */
  ghost function Carve(m: Blocks, a: int, ptr: int, size: int): Blocks
    requires CanCarve(m, a, ptr, size)
  {
    CutIf(CutIf(m, a, ptr), ptr, ptr + size)[ptr := Extent(ptr, size, true)]
  }

  lemma CutIfTiles(m: Blocks, lo: int, hi: int, a: int, at: int)
    requires Tiles(m, lo, hi) && a in m
    ensures Tiles(CutIf(m, a, at), lo, hi)
  {
    if a < at < m[a].End() { CutTiles(m, lo, hi, a, at); }
  }

  lemma CarveTiles(m: Blocks, lo: int, hi: int, a: int, ptr: int, size: int)
    requires Tiles(m, lo, hi) && CanCarve(m, a, ptr, size)
    ensures Tiles(Carve(m, a, ptr, size), lo, hi)
  {
    var left := CutIf(m, a, ptr);
    CutIfTiles(m, lo, hi, a, ptr);
    CutIfTiles(left, lo, hi, ptr, ptr + size);
    var right := CutIf(left, ptr, ptr + size);
    assert right[ptr].size == size;
    SameShape(right, Carve(m, a, ptr, size), lo, hi);
  }

  /** Whether blocks are in use does not matter to the tiling. */
  lemma SameShape(m: Blocks, n: Blocks, lo: int, hi: int)
    requires Tiles(m, lo, hi) && m.Keys == n.Keys
    requires forall a <- m :: n[a].adr == m[a].adr && n[a].size == m[a].size
    ensures Tiles(n, lo, hi)
  {
    forall a | a in n ensures Placed(n, lo, hi, a) {
      assert Placed(m, lo, hi, a);
      if a != lo {
        var p :| p in m && m[p].End() == a;
        assert n[p].End() == a;
      }
    }
  }

  lemma CarveIndex(m: Blocks, a: int, ptr: int, size: int, b: int)
    requires CanCarve(m, a, ptr, size)
    ensures var n := Carve(m, a, ptr, size);
            && (b in n <==> b in m || b == ptr || (b == ptr + size && b < m[a].End()))
            && (b in n ==> n[b] == if b == ptr then Extent(ptr, size, true)
                                   else if b == a then Extent(a, ptr - a, false)
                                   else if b == ptr + size && b < m[a].End() then Extent(b, m[a].End() - b, false)
                                   else m[b])
  {
  }

  lemma CarveLive(m: Blocks, lo: int, hi: int, a: int, ptr: int, size: int)
    requires Tiles(m, lo, hi) && CanCarve(m, a, ptr, size)
    ensures Live(Carve(m, a, ptr, size)) == Live(m) + {Extent(ptr, size, true)}
    ensures Extent(ptr, size, true) !in Live(m)
  {
    var n := Carve(m, a, ptr, size);
    assert Placed(m, lo, hi, a);
    forall e | e in Live(n) ensures e in Live(m) + {Extent(ptr, size, true)} {
      var b :| b in n && n[b] == e;
      CarveIndex(m, a, ptr, size, b);
    }
    forall e | e in Live(m) ensures e in Live(n) {
      CarveIndex(m, a, ptr, size, e.adr);
      assert n[e.adr] == e;
    }
    CarveIndex(m, a, ptr, size, ptr);
    assert n[ptr] in Live(n);
  }

  lemma CarveCanonical(m: Blocks, lo: int, hi: int, a: int, ptr: int, size: int)
    requires Canonical(m, lo, hi) && CanCarve(m, a, ptr, size)
    ensures Canonical(Carve(m, a, ptr, size), lo, hi)
    ensures Live(Carve(m, a, ptr, size)) == Live(m) + {Extent(ptr, size, true)}
    ensures Extent(ptr, size, true) !in Live(m)
  {
    CarveTiles(m, lo, hi, a, ptr, size);
    CarveLive(m, lo, hi, a, ptr, size);
    var n := Carve(m, a, ptr, size);
    forall b, c | b in n && c in n && n[b].End() == c ensures n[b].used || n[c].used {
      CarveIndex(m, a, ptr, size, b);
      CarveIndex(m, a, ptr, size, c);
      assert Placed(m, lo, hi, a) && Placed(n, lo, hi, b);
      assert b in m && c in m && m[b].End() == c ==> m[b].used || m[c].used;
    }
  }

  /** [ptr, ptr + size) lies in a smallest free block of at least `need`. */
  ghost predicate FromBestFit(m: Blocks, need: int, ptr: int, size: int) {
    exists a :: BestFit(m, a, need) && CanCarve(m, a, ptr, size)
  }

  /** No block starts strictly inside another. */
  lemma NoStartInside(m: Blocks, lo: int, hi: int, a: int)
    requires Tiles(m, lo, hi) && a in m
    ensures forall at :: a < at < m[a].End() ==> at !in m
  {
    assert Placed(m, lo, hi, a);
  }

  lemma CarvableIsFree(m: Blocks, a: int, ptr: int, size: int)
    requires CanCarve(m, a, ptr, size)
    ensures FreeRange(m, ptr, size)
  {
    forall x | ptr <= x < ptr + size ensures FreeAddress(m, x) {
      assert m[a].Covers(x);
    }
  }

  /** Taking a block into use takes it out of the size tree. */
  lemma UsedFreeSizes(m: Blocks, a: int)
    requires a in m && !m[a].used
    ensures FreeSizes(m[a := m[a].(used := true)]) == FreeSizes(m) - {a}
  {
  }

  // ---------- release ----------

  /** The block at a joined with the one that follows it. */
  ghost function Join(m: Blocks, a: int): Blocks
    requires a in m && m[a].End() in m
  {
    (m - {m[a].End()})[a := Extent(a, m[a].size + m[m[a].End()].size, false)]
  }

  lemma JoinFreeSizes(m: Blocks, a: int)
    requires a in m && m[a].End() in m && !m[a].used && !m[m[a].End()].used && m[a].size > 0 && m[a].adr == a
    ensures var right := m[a].End();
            FreeSizes(Join(m, a)) == (FreeSizes(m) - {a} - {right})[a := m[a].size + m[right].size]
  {
  }

  lemma JoinTiles(m: Blocks, lo: int, hi: int, a: int)
    requires Tiles(m, lo, hi) && a in m && m[a].End() in m
    ensures Tiles(Join(m, a), lo, hi)
  {
    forall b | b in Join(m, a) ensures Placed(Join(m, a), lo, hi, b) {
      JoinPlaced(m, lo, hi, a, b);
    }
  }

  lemma JoinPlaced(m: Blocks, lo: int, hi: int, a: int, b: int)
    requires Tiles(m, lo, hi) && a in m && m[a].End() in m && b in Join(m, a)
    ensures Placed(Join(m, a), lo, hi, b)
  {
    var n := Join(m, a);
    var gone := m[a].End();
    assert Placed(m, lo, hi, b) && Placed(m, lo, hi, a) && Placed(m, lo, hi, gone);
    if b != lo {
      var p :| p in m && m[p].End() == b;
      assert n[if p == gone then a else p].End() == b;
    }
  }

  lemma JoinLive(m: Blocks, lo: int, hi: int, a: int)
    requires Tiles(m, lo, hi) && a in m && m[a].End() in m && !m[a].used && !m[m[a].End()].used
    ensures Live(Join(m, a)) == Live(m)
  {
    var n := Join(m, a);
    assert Placed(m, lo, hi, a);
    JoinTiles(m, lo, hi, a);
    forall e ensures e in Live(n) <==> e in Live(m) {
      LiveIff(m, lo, hi, e);
      LiveIff(n, lo, hi, e);
    }
  }

  /** The block before a, if there is one, ends where a starts. */
  lemma PreviousTouches(m: Blocks, lo: int, hi: int, a: int, p: Option<int>)
    requires Tiles(m, lo, hi) && a in m
    requires p.Some? ==> p.value in m && p.value < a && forall b <- m :: b < a ==> b <= p.value
    requires p.None? ==> forall b <- m :: a <= b
    ensures p.Some? ==> m[p.value].End() == a
    ensures forall b <- m :: m[b].End() == a ==> p == Some(b)
  {
    assert Placed(m, lo, hi, a);
    if p.Some? {
      assert Placed(m, lo, hi, p.value);
    }
    forall b | b in m && m[b].End() == a ensures p == Some(b) {
      assert Placed(m, lo, hi, b);
    }
  }

  /** The block after a, if there is one, starts where a ends. */
  lemma NextTouches(m: Blocks, lo: int, hi: int, a: int, n: Option<int>)
    requires Tiles(m, lo, hi) && a in m
    requires n.Some? ==> n.value in m && a < n.value && forall b <- m :: a < b ==> n.value <= b
    requires n.None? ==> forall b <- m :: b <= a
    ensures n.Some? ==> m[a].End() == n.value
    ensures n.None? ==> m[a].End() !in m
  {
    assert Placed(m, lo, hi, a);
  }

  ghost function Marked(m: Blocks, a: int): Blocks
    requires a in m
  {
    m[a := Extent(a, m[a].size, false)]
  }

  lemma MarkedFreeSizes(m: Blocks, a: int)
    requires a in m && m[a].used
    ensures FreeSizes(Marked(m, a)) == FreeSizes(m)[a := m[a].size]
  {
  }

  lemma MarkedKeeps(m: Blocks, lo: int, hi: int, a: int)
    requires Canonical(m, lo, hi) && a in m && m[a].used
    ensures Tiles(Marked(m, a), lo, hi) && CoalescedExceptAt(Marked(m, a), a)
    ensures Live(Marked(m, a)) == Live(m) - {m[a]}
  {
    var n := Marked(m, a);
    SameShape(m, n, lo, hi);
    forall e ensures e in Live(n) <==> e in Live(m) - {m[a]} {
      LiveIff(m, lo, hi, e);
      LiveIff(n, lo, hi, e);
    }
  }

  /** The free block at a has no free left neighbour. */
  ghost predicate ClosedOnTheLeft(m: Blocks, a: int) {
    forall p <- m :: m[p].End() == a ==> m[p].used
  }

  /** The free block at a has no free right neighbour. */
  ghost predicate ClosedOnTheRight(m: Blocks, a: int)
    requires a in m
  {
    m[a].End() in m ==> m[m[a].End()].used
  }

  lemma JoinLeftKeeps(m: Blocks, lo: int, hi: int, p: int)
    requires Tiles(m, lo, hi) && p in m && m[p].End() in m && CoalescedExceptAt(m, m[p].End())
    requires !m[p].used && !m[m[p].End()].used
    ensures Tiles(Join(m, p), lo, hi) && CoalescedExceptAt(Join(m, p), p)
    ensures Live(Join(m, p)) == Live(m) && ClosedOnTheLeft(Join(m, p), p)
  {
    JoinTiles(m, lo, hi, p);
    JoinLive(m, lo, hi, p);
  }

  lemma JoinRightKeeps(m: Blocks, lo: int, hi: int, a: int)
    requires Tiles(m, lo, hi) && a in m && m[a].End() in m && CoalescedExceptAt(m, a)
    requires !m[a].used && !m[m[a].End()].used && ClosedOnTheLeft(m, a)
    ensures Canonical(Join(m, a), lo, hi) && Live(Join(m, a)) == Live(m)
  {
    JoinTiles(m, lo, hi, a);
    JoinLive(m, lo, hi, a);
  }

  /** Nothing to join: the map is already canonical. */
  lemma NothingToJoin(m: Blocks, lo: int, hi: int, a: int)
    requires Tiles(m, lo, hi) && a in m && CoalescedExceptAt(m, a)
    requires !m[a].used && ClosedOnTheLeft(m, a) && ClosedOnTheRight(m, a)
    ensures Canonical(m, lo, hi)
  {
  }

  // ---------- whole runs ----------

  // Everything an allocator keeps: the address tree, the size tree and the two counters.
  datatype PoolState = PoolState(blocks: Blocks, sizes: map<int, int>, total: int, inUse: int)

  ghost predicate InOrder(s: PoolState, lo: int, hi: int) {
    && Canonical(s.blocks, lo, hi)
    && s.sizes == FreeSizes(s.blocks)
    && s.total == hi - lo
    && s.inUse == Sum(Live(s.blocks))
  }

  /** The outstanding allocations determine the whole state, indices and counters included. */
  lemma StateDetermined(s: PoolState, t: PoolState, lo: int, hi: int)
    requires InOrder(s, lo, hi) && InOrder(t, lo, hi)
    ensures s == t <==> Live(s.blocks) == Live(t.blocks)
  {
    CanonicalUnique(s.blocks, t.blocks, lo, hi);
  }

  /** t came from s by allocating x. */
  ghost predicate AllocStep(s: PoolState, x: Extent, t: PoolState, lo: int, hi: int) {
    InOrder(s, lo, hi) && InOrder(t, lo, hi) && x !in Live(s.blocks) && Live(t.blocks) == Live(s.blocks) + {x}
  }

  /** t came from s by freeing x. */
  ghost predicate FreeStep(s: PoolState, x: Extent, t: PoolState, lo: int, hi: int) {
    InOrder(s, lo, hi) && InOrder(t, lo, hi) && x in Live(s.blocks) && Live(t.blocks) == Live(s.blocks) - {x}
  }

  /** Freeing what was just allocated restores the block map, both indices and both counters. */
  lemma FreeUndoesAlloc(s: PoolState, x: Extent, t: PoolState, u: PoolState, lo: int, hi: int)
    requires AllocStep(s, x, t, lo, hi) && FreeStep(t, x, u, lo, hi)
    ensures u == s
  {
    assert Live(u.blocks) == Live(s.blocks);
    StateDetermined(s, u, lo, hi);
  }

  /** states[i + 1] came from states[i] by freeing freed[i]. */
  ghost predicate FreeRun(states: seq<PoolState>, freed: seq<Extent>, lo: int, hi: int) {
    && |states| == |freed| + 1 && InOrder(states[0], lo, hi)
    && forall i, j {:trigger states[i], states[j]} :: 0 <= i && j == i + 1 && j < |states| ==>
         FreeStep(states[i], freed[i], states[j], lo, hi)
  }

  lemma {:induction false} FreedAreGone(states: seq<PoolState>, freed: seq<Extent>, lo: int, hi: int, n: nat)
    requires FreeRun(states, freed, lo, hi) && n <= |freed|
    ensures InOrder(states[n], lo, hi)
    ensures Live(states[n].blocks) == Live(states[0].blocks) - (set x | x in freed[..n])
    decreases n
  {
    if n > 0 {
      FreedAreGone(states, freed, lo, hi, n - 1);
      assert FreeStep(states[n - 1], freed[n - 1], states[n], lo, hi);
      assert freed[..n] == freed[..n - 1] + [freed[n - 1]];
    }
  }

  /** Freeing a set of allocations ends in the same state in whatever order they are freed, and
      freeing all of them in the one block that Register made. */
  lemma FreesInAnyOrder(a: seq<PoolState>, fa: seq<Extent>, b: seq<PoolState>, fb: seq<Extent>, lo: int, hi: int)
    requires FreeRun(a, fa, lo, hi) && FreeRun(b, fb, lo, hi) && a[0] == b[0]
    requires (set x | x in fa) == (set x | x in fb)
    ensures a[|fa|] == b[|fb|]
    ensures lo < hi && (set x | x in fa) == Live(a[0].blocks) ==> a[|fa|] == PoolState(Whole(lo, hi), map[lo := hi - lo], hi - lo, 0)
  {
    FreedAreGone(a, fa, lo, hi, |fa|);
    FreedAreGone(b, fb, lo, hi, |fb|);
    assert fa[..|fa|] == fa && fb[..|fb|] == fb;
    StateDetermined(a[|fa|], b[|fb|], lo, hi);
    if lo < hi && (set x | x in fa) == Live(a[0].blocks) {
      EmptyPool(a[|fa|].blocks, lo, hi);
    }
  }
}
