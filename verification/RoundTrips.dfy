/** Several calls in a row: what the allocator and a file keep across them. */
module RoundTrips {
  import opened Basics
  import opened Bytes
  import opened BlockMap
  import opened ExternalAllocator
  import opened FlatFile
  import opened ShmfsFileVnode
  import Names
  import Listing
  import DirCursors

  // ---------- an allocation and its Free ----------

  /** Freeing an allocation that `was` did not have leads back to `was`, in all that the
      allocator keeps. */
  method FreeAgain(pool: Allocator, ptr: uint64, ghost size: int, ghost was: PoolState)
    requires pool.Valid() && InOrder(was, pool.lo, pool.hi)
    requires Extent(ptr, size, true) !in Live(was.blocks)
    requires Live(pool.fAdrMap) == Live(was.blocks) + {Extent(ptr, size, true)}
    modifies pool
    ensures pool.Valid() && pool.State() == was
  {
    ghost var s, x := pool.State(), Extent(ptr, size, true);
    LiveIff(pool.fAdrMap, pool.lo, pool.hi, x);
    var freed := pool.Free(ptr);
    FreeUndoesAlloc(was, x, s, pool.State(), pool.lo, pool.hi);
  }

  method AllocThenFree(pool: Allocator, size: uint64)
    requires pool.Valid() && 0 < size
    modifies pool
    ensures pool.Valid() && pool.State() == old(pool.State())
  {
    ghost var was := pool.State();
    var ok, ptr := pool.Alloc(size);
    if ok {
      FreeAgain(pool, ptr, size, was);
    } else {
      StateDetermined(was, pool.State(), pool.lo, pool.hi);
    }
  }

  method AllocAtThenFree(pool: Allocator, ptr: uint64, size: uint64)
    requires pool.Valid() && 0 < size && !Misjudged(pool.fAdrMap, ptr, size)
    modifies pool
    ensures pool.Valid() && pool.State() == old(pool.State())
  {
    ghost var was := pool.State();
    var ok := pool.AllocAt(ptr, size);
    if ok {
      FreeAgain(pool, ptr, size, was);
    } else {
      StateDetermined(was, pool.State(), pool.lo, pool.hi);
    }
  }

  method AllocAlignedThenFree(pool: Allocator, size: uint64, align: uint64)
    requires pool.Valid() && 0 < size && 0 < align && size + (align - 1) < TWO_TO_THE_64
    modifies pool
    ensures pool.Valid() && pool.State() == old(pool.State())
  {
    ghost var was := pool.State();
    var ok, ptr := pool.AllocAligned(size, align);
    if ok {
      FreeAgain(pool, ptr, size, was);
    } else {
      StateDetermined(was, pool.State(), pool.lo, pool.hi);
    }
  }

  // ---------- a write and what it shows ----------

  /** A write from a buffer that can be accessed in full, with the pages it allocated. */
  method WriteAll(file: FileVnode, pos: nat, isAppend: bool, buffer: seq<uint8>, resizeOk: bool, junk: Junk)
    returns (st: Status, ghost blank: Pages)
    requires file.Valid() && WholeJunk(junk)
    modifies file
    ensures file.Valid()
    ensures st == OK || (st == NoMemory && !resizeOk && file.Pages() == old(file.Pages()) && file.fDataSize == old(file.fDataSize))
    ensures var at := if isAppend then old(file.fDataSize) else pos;
            st == OK ==>
              && FreshFor(blank, old(file.Pages()), at, |buffer|)
              && file.Pages() == Written(old(file.Pages()), blank, at, buffer)
              && file.fDataSize == Max(old(file.fDataSize), at + |buffer|)
  {
    blank := file.Allocated(if isAppend then file.fDataSize else pos, |buffer|, junk);
    var n;
    st, n := file.Write(pos, isAppend, buffer, resizeOk, |buffer|, junk);
    assert buffer[..Min(|buffer|, |buffer|)] == buffer;
  }

  /** The range reads back, and with safe margins the file is the flat file with the data in it. */
  method WriteShown(file: FileVnode, pos: nat, buffer: seq<uint8>, resizeOk: bool, junk: Junk) returns (st: Status)
    requires file.Valid() && WholeJunk(junk)
    modifies file
    ensures file.Valid()
    ensures st == OK || (st == NoMemory && file.Bytes() == old(file.Bytes()))
    ensures st == OK ==> Slice(file.Bytes(), pos, |buffer|) == buffer
    ensures st == OK && old(SafeMargins(file.Pages(), file.fDataSize, pos, |buffer|)) ==>
              file.Bytes() == Spliced(old(file.Bytes()), pos, buffer)
  {
    ghost var r, size := file.Pages(), file.fDataSize;
    ghost var blank;
    st, blank := WriteAll(file, pos, false, buffer, resizeOk, junk);
    if st == OK {
      WriteThenRead(r, blank, size, pos, buffer);
      WriteAlwaysSplices(r, size, pos, buffer);
    }
  }

  /** What a write put there is what a read of the range gives. */
  method WriteThenReadBack(file: FileVnode, pos: nat, buffer: seq<uint8>, resizeOk: bool, junk: Junk)
    returns (st: Status, out: seq<uint8>)
    requires file.Valid() && WholeJunk(junk)
    modifies file
    ensures file.Valid()
    ensures st == OK || st == NoMemory
    ensures st == OK ==> out == buffer
  {
    out := [];
    st := WriteShown(file, pos, buffer, resizeOk, junk);
    if st == OK {
      var n;
      st, n, out := file.Read(pos, |buffer|, |buffer|, junk);
    }
  }

  // ---------- a run of appends ----------

  function Concatenated(buffers: seq<seq<uint8>>): seq<uint8> {
    if buffers == [] then [] else Concatenated(buffers[..|buffers| - 1]) + buffers[|buffers| - 1]
  }

  method Append(file: FileVnode, buffer: seq<uint8>, junk: Junk)
    requires file.Valid() && WholeJunk(junk) && Dense(file.Pages(), file.fDataSize)
    modifies file
    ensures file.Valid() && Dense(file.Pages(), file.fDataSize)
    ensures file.Bytes() == old(file.Bytes()) + buffer
  {
    ghost var r, size := file.Pages(), file.fDataSize;
    var st, blank := WriteAll(file, 0, true, buffer, true, junk);
    ghost var t, n := file.Pages(), file.fDataSize;
    assert t == Written(r, blank, size, buffer) && n == size + |buffer|;
    AppendAdds(r, blank, size, buffer);
    assert Dense(t, n) && Contents(t, n) == Contents(r, size) + buffer;
  }

  /** From an empty file, appending one buffer after the other leaves all of them, in order,
      whatever the pages held that each append allocated. */
  method AppendAll(file: FileVnode, buffers: seq<seq<uint8>>, junk: nat -> Junk)
    requires file.Valid() && file.fDataSize == 0 && forall i :: WholeJunk(junk(i))
    modifies file
    ensures file.Valid() && file.Bytes() == Concatenated(buffers)
  {
    for i := 0 to |buffers|
      invariant file.Valid() && Dense(file.Pages(), file.fDataSize)
      invariant file.Bytes() == Concatenated(buffers[..i])
    {
      assert WholeJunk(junk(i));
      Append(file, buffers[i], junk(i));
      assert buffers[..i + 1][..i] == buffers[..i];
    }
    assert buffers[..|buffers|] == buffers;
  }

  // ---------- a directory read from beginning to end ----------

  /** A new cursor, and ReadDir until it gives out nothing more: ".", then ".." exactly if there
      is a parent, then each name of the directory, once and in order. It ends before that only
      if some entry does not fit in the buffer. */
  method ListWhole(dir: DirCursors.DirectoryListing, k: DirCursors.Cookie, maxNum: nat, bufferSize: nat)
    returns (ok: bool, names: seq<string>)
    requires k !in dir.fIterators && 0 < maxNum
    modifies dir
    ensures dir.fNodes == old(dir.fNodes)
    ensures ok ==> var d := if dir.hasParent then 2 else 1;
              && d <= |names| && names[..d] == (if dir.hasParent then [".", ".."] else ["."])
              && (forall i, j :: d <= i < j < |names| ==> Names.Less(names[i], names[j]))
              && (forall n :: n in names[d..] <==> n in dir.fNodes)
    ensures !ok ==> exists n: string :: (n in dir.fNodes || n in {".", ".."}) && bufferSize < dir.direntHeader + |n| + 1
  {
    dir.OpenDir(k);
    ok, names := true, [];
    ghost var all := DirCursors.Rest(dir.fNodes, dir.hasParent, dir.fIterators[k]);
    ghost var rest := all;
    while true
      invariant k in dir.fIterators && dir.fNodes == old(dir.fNodes)
      invariant rest == DirCursors.Rest(dir.fNodes, dir.hasParent, dir.fIterators[k]) && all == names + rest
      decreases |rest|
    {
      var given;
      ghost var left;
      ok, given, left := ReadMore(dir, k, maxNum, bufferSize);
      names := names + given;
      if !ok {
        assert left[0] in all;
        InListing(dir.fNodes, dir.hasParent, all, left[0]);
        return;
      }
      if given == [] {
        break;
      }
      rest := left;
    }
    WholeListing(dir.fNodes, dir.hasParent, names);
  }

  lemma WholeListing(fNodes: set<string>, hasParent: bool, names: seq<string>)
    requires names == DirCursors.Rest(fNodes, hasParent, DirCursors.DirIterator(0, Names.First(fNodes)))
    ensures var d := if hasParent then 2 else 1;
            && d <= |names| && names[..d] == (if hasParent then [".", ".."] else ["."])
            && (forall i, j :: d <= i < j < |names| ==> Names.Less(names[i], names[j]))
            && (forall n :: n in names[d..] <==> n in fNodes)
  {
    DirCursors.WholeListing(fNodes, hasParent);
  }

  /** One ReadDir: the names given, and those left. */
  method ReadMore(dir: DirCursors.DirectoryListing, k: DirCursors.Cookie, maxNum: nat, bufferSize: nat)
    returns (ok: bool, given: seq<string>, ghost left: seq<string>)
    requires k in dir.fIterators && 0 < maxNum
    modifies dir`fIterators
    ensures k in dir.fIterators && left == DirCursors.Rest(dir.fNodes, dir.hasParent, dir.fIterators[k])
    ensures old(DirCursors.Rest(dir.fNodes, dir.hasParent, dir.fIterators[k])) == given + left
    ensures ok && given == [] ==> left == []
    ensures !ok ==> left != [] && bufferSize < dir.direntHeader + |left[0]| + 1
  {
    var st, out := dir.ReadDir(k, maxNum, bufferSize);
    ok, given := st == DirCursors.OK, Listing.NamesOf(out);
    left := DirCursors.Rest(dir.fNodes, dir.hasParent, dir.fIterators[k]);
  }

  lemma InListing(fNodes: set<string>, hasParent: bool, all: seq<string>, n: string)
    requires all == DirCursors.Rest(fNodes, hasParent, DirCursors.DirIterator(0, Names.First(fNodes))) && n in all
    ensures n in fNodes || n in {".", ".."}
  {
    DirCursors.WholeListing(fNodes, hasParent);
    var d := if hasParent then 2 else 1;
    var i :| 0 <= i < |all| && all[i] == n;
    if d <= i {
      assert all[d..][i - d] == n;
    } else {
      assert all[..d][i] == n;
    }
  }
}
