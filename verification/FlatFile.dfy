/** A sparse set of resident pages seen as one flat file, and what a write through the pages
    does to it. */
module FlatFile {
  import opened Bytes

  const B_PAGE_SIZE: int := 4096

  type Page = seq<uint8>
  // The pages of the cache, by page number.
  type Pages = map<nat, Page>

  ghost predicate WholePages(r: Pages) {
    forall k <- r :: |r[k]| == B_PAGE_SIZE
  }

  /** The byte at address a; an absent page reads as zeros. */
  function At(r: Pages, a: nat): uint8
    requires WholePages(r)
  {
    if a / B_PAGE_SIZE in r then r[a / B_PAGE_SIZE][a % B_PAGE_SIZE] else 0
  }

  function Contents(r: Pages, size: nat): (c: seq<uint8>)
    requires WholePages(r)
    ensures |c| == size && forall a :: 0 <= a < size ==> c[a] == At(r, a)
  {
    seq(size, a requires 0 <= a < size => At(r, a))
  }

  /** How many pages one transfer works on: those that hold [offset, offset + length), and
      the page of an unaligned offset even when there is nothing to transfer. */
  function PageCount(offset: nat, length: nat): nat {
    (length + offset % B_PAGE_SIZE + B_PAGE_SIZE - 1) / B_PAGE_SIZE
  }

  predicate Touched(k: nat, offset: nat, length: nat) {
    offset / B_PAGE_SIZE <= k < offset / B_PAGE_SIZE + PageCount(offset, length)
  }

  /** A page is touched exactly if it ends after the range begins and begins before the range
      ends: then it holds an address of the range or, when there is nothing to transfer, has the
      offset inside it. */
  lemma TouchedIff(k: nat, offset: nat, length: nat)
    ensures Touched(k, offset, length) <==> k * 4096 < offset + length && offset < (k + 1) * 4096
    ensures 0 < length ==> (Touched(k, offset, length) <==> exists a :: offset <= a < offset + length && a / 4096 == k)
  {
    var first, skip := offset / B_PAGE_SIZE, offset % B_PAGE_SIZE;
    assert offset == first * B_PAGE_SIZE + skip;
    if 0 < length && Touched(k, offset, length) {
      var a := Max(offset, k * B_PAGE_SIZE);
      assert offset <= a < offset + length && a / 4096 == k;
    }
  }

  lemma TouchedHolds(a: nat, offset: nat, length: nat)
    requires offset <= a < offset + length
    ensures Touched(a / B_PAGE_SIZE, offset, length)
  {
  }

  /** Page k with the bytes of `data`, which belongs at offset, laid over it. */
  function Overlay(p: Page, k: nat, offset: nat, data: seq<uint8>): (q: Page)
    requires |p| == B_PAGE_SIZE
    ensures |q| == B_PAGE_SIZE
  {
    seq(B_PAGE_SIZE, i requires 0 <= i < B_PAGE_SIZE =>
      var a := k * B_PAGE_SIZE + i;
      if offset <= a < offset + |data| then data[a - offset] else p[i])
  }

  /** Byte by byte: the data inside the range, and elsewhere what the page held. */
  lemma OverlayAt(p: Page, k: nat, offset: nat, data: seq<uint8>, i: nat)
    requires |p| == 4096 && i < 4096
    ensures var a := k * 4096 + i;
            Overlay(p, k, offset, data)[i] == if offset <= a < offset + |data| then data[a - offset] else p[i]
  {
  }

  /** A page that does not overlap the range stays as it is. */
  lemma OverlayApart(p: Page, k: nat, offset: nat, data: seq<uint8>)
    requires |p| == 4096 && ((k + 1) * 4096 <= offset || offset + |data| <= k * 4096)
    ensures Overlay(p, k, offset, data) == p
  {
    assert forall i :: 0 <= i < 4096 ==> Overlay(p, k, offset, data)[i] == p[i];
  }

  /** Laying over the next stretch of data, which lies in page k at `at`, changes just that part. */
  lemma OverlayStep(p: Page, k: nat, offset: nat, data: seq<uint8>, done: nat, more: nat, at: nat)
    requires |p| == B_PAGE_SIZE && done + more <= |data| && at + more <= B_PAGE_SIZE
    requires offset + done == k * B_PAGE_SIZE + at
    ensures var q := Overlay(p, k, offset, data[..done]);
            Overlay(p, k, offset, data[..done + more]) == q[..at] + data[done..done + more] + q[at + more..]
  {
  }

  /** ... and leaves every other page as it was. */
  lemma OverlayElsewhere(p: Page, j: nat, k: nat, offset: nat, data: seq<uint8>, done: nat, more: nat, at: nat)
    requires |p| == B_PAGE_SIZE && done + more <= |data| && at + more <= B_PAGE_SIZE
    requires offset + done == k * B_PAGE_SIZE + at && j != k
    ensures Overlay(p, j, offset, data[..done + more]) == Overlay(p, j, offset, data[..done])
  {
  }

  lemma OverlayUntouched(p: Page, k: nat, offset: nat, data: seq<uint8>)
    requires |p| == B_PAGE_SIZE && !Touched(k, offset, |data|)
    ensures Overlay(p, k, offset, data) == p
  {
  }

  /** What page k holds before the transfer: its contents, or those of the page allocated for it. */
  function Base(r: Pages, blank: Pages, k: nat): Page
    requires k in r || k in blank
  {
    if k in r then r[k] else blank[k]
  }

  /** `blank` holds pages for exactly the touched page numbers that were absent. */
  ghost predicate FreshFor(blank: Pages, r: Pages, offset: nat, length: nat) {
    && WholePages(blank)
    && forall k :: k in blank <==> Touched(k, offset, length) && k !in r
  }

  /** The pages after data is written at offset, with whatever the fresh pages held. */
  function Written(r: Pages, blank: Pages, offset: nat, data: seq<uint8>): (t: Pages)
    requires WholePages(r) && WholePages(blank)
    ensures WholePages(t) && t.Keys == r.Keys + blank.Keys
  {
    map k | k in r.Keys + blank.Keys :: Overlay(Base(r, blank, k), k, offset, data)
  }

  lemma NothingWritten(r: Pages, offset: nat)
    requires WholePages(r)
    ensures Written(r, map[], offset, []) == r
  {
    forall k | k in r ensures Overlay(r[k], k, offset, []) == r[k] { }
  }

  /** What the file shows of each page. */
  lemma ContentsAt(r: Pages, size: nat, k: nat, i: nat)
    requires WholePages(r) && i < 4096 && k * 4096 + i < size
    ensures Contents(r, size)[k * 4096 + i] == if k in r then r[k][i] else 0
  {
    assert (k * 4096 + i) / B_PAGE_SIZE == k && (k * 4096 + i) % B_PAGE_SIZE == i;
  }

  /** Every byte after a write: the data inside the range, what was there outside it, and on a
      fresh page what that page happened to hold. */
  lemma WrittenAt(r: Pages, blank: Pages, offset: nat, data: seq<uint8>, a: nat)
    requires WholePages(r) && FreshFor(blank, r, offset, |data|)
    ensures At(Written(r, blank, offset, data), a)
         == if offset <= a < offset + |data| then data[a - offset]
            else if a / B_PAGE_SIZE in blank then blank[a / B_PAGE_SIZE][a % B_PAGE_SIZE]
            else At(r, a)
  {
    var k := a / B_PAGE_SIZE;
    assert a == k * B_PAGE_SIZE + a % B_PAGE_SIZE;
    if offset <= a < offset + |data| {
      TouchedHolds(a, offset, |data|);
    }
  }

  /** Where the write leaves bytes alone, the file shows what it did before: the pages
      allocated for it hold zeros there, and so do the resident pages past the old end. */
  ghost predicate CleanMargins(r: Pages, blank: Pages, size: nat, offset: nat, length: nat)
    requires WholePages(r) && WholePages(blank)
  {
    forall a: nat :: a < Max(size, offset + length) && !(offset <= a < offset + length) ==>
      if a / B_PAGE_SIZE in blank then blank[a / B_PAGE_SIZE][a % B_PAGE_SIZE] == 0
      else a < size || At(r, a) == 0
  }

  /** The paged write is the write of the flat file exactly when its margins are clean. */
  lemma WriteIsSplice(r: Pages, blank: Pages, size: nat, offset: nat, data: seq<uint8>)
    requires WholePages(r) && FreshFor(blank, r, offset, |data|)
    ensures Contents(Written(r, blank, offset, data), Max(size, offset + |data|))
              == Spliced(Contents(r, size), offset, data)
       <==> CleanMargins(r, blank, size, offset, |data|)
  {
    var n := Max(size, offset + |data|);
    var t := Written(r, blank, offset, data);
    var c, d := Contents(t, n), Spliced(Contents(r, size), offset, data);
    forall a: nat | a < n
      ensures c[a] == d[a] <==> (!(offset <= a < offset + |data|) ==>
        if a / B_PAGE_SIZE in blank then blank[a / B_PAGE_SIZE][a % B_PAGE_SIZE] == 0
        else a < size || At(r, a) == 0)
    {
      WrittenAt(r, blank, offset, data, a);
      SplicedAt(Contents(r, size), offset, data, a);
    }
    if CleanMargins(r, blank, size, offset, |data|) {
      assert forall a :: 0 <= a < n ==> c[a] == d[a];
      assert c == d;
    }
  }

  /** The same without looking at what the allocator will give: every address that the file
      comes to hold, outside the range, is on a resident page, and zero if the file did not hold
      it before, or else is on an absent page that the write does not allocate. */
  ghost predicate SafeMargins(r: Pages, size: nat, offset: nat, length: nat)
    requires WholePages(r)
  {
    forall a: nat :: a < Max(size, offset + length) && !(offset <= a < offset + length) ==>
      if a / B_PAGE_SIZE in r then a < size || At(r, a) == 0 else !Touched(a / B_PAGE_SIZE, offset, length)
  }

  /** The paged write is the write of the flat file, whatever the fresh pages hold, exactly when
      the margins are safe. */
  lemma WriteAlwaysSplices(r: Pages, size: nat, offset: nat, data: seq<uint8>)
    requires WholePages(r)
    ensures SafeMargins(r, size, offset, |data|)
       <==> forall blank :: FreshFor(blank, r, offset, |data|) ==>
              Contents(Written(r, blank, offset, data), Max(size, offset + |data|))
                == Spliced(Contents(r, size), offset, data)
  {
    forall blank | FreshFor(blank, r, offset, |data|)
      ensures Contents(Written(r, blank, offset, data), Max(size, offset + |data|)) == Spliced(Contents(r, size), offset, data)
         <==> CleanMargins(r, blank, size, offset, |data|)
      ensures SafeMargins(r, size, offset, |data|) ==> CleanMargins(r, blank, size, offset, |data|)
    {
      WriteIsSplice(r, blank, size, offset, data);
    }
    var ones := Ones(r, offset, |data|);
    if CleanMargins(r, ones, size, offset, |data|) {
      OnesShow(r, size, offset, |data|);
    }
  }

  /** Fresh pages full of ones. */
  ghost function Ones(r: Pages, offset: nat, length: nat): (blank: Pages)
    ensures FreshFor(blank, r, offset, length)
  {
    map k: nat | offset / B_PAGE_SIZE <= k < offset / B_PAGE_SIZE + PageCount(offset, length) && k !in r ::
      seq(B_PAGE_SIZE, _ => 1)
  }

  lemma OnesShow(r: Pages, size: nat, offset: nat, length: nat)
    requires WholePages(r) && CleanMargins(r, Ones(r, offset, length), size, offset, length)
    ensures SafeMargins(r, size, offset, length)
  {
  }

  /** For instance: one byte written at 1 to an empty file, on a fresh page of ones. Before it
      the file shows a one where the flat file has a zero. */
  lemma GapShowsFreshPage(x: uint8)
    ensures var ones := Ones(map[], 1, 1);
            && FreshFor(ones, map[], 1, 1) && !SafeMargins(map[], 0, 1, 1)
            && Contents(Written(map[], ones, 1, [x]), 2) == [1, x]
            && Spliced(Contents(map[], 0), 1, [x]) == [0, x]
  {
    var ones := Ones(map[], 1, 1);
    assert Touched(0, 1, 1);
    WrittenAt(map[], ones, 1, [x], 0);
    WrittenAt(map[], ones, 1, [x], 1);
  }

  /** A write and then a read of the same range gives the same bytes, across any number of
      page boundaries and whatever the fresh pages held. */
  lemma WriteThenRead(r: Pages, blank: Pages, size: nat, offset: nat, data: seq<uint8>)
    requires WholePages(r) && FreshFor(blank, r, offset, |data|)
    ensures Slice(Contents(Written(r, blank, offset, data), Max(size, offset + |data|)), offset, |data|) == data
  {
    var n := Max(size, offset + |data|);
    var c := Contents(Written(r, blank, offset, data), n);
    forall i | 0 <= i < |data| ensures c[offset + i] == data[i] {
      WrittenAt(r, blank, offset, data, offset + i);
    }
    assert c[offset..offset + |data|] == data;
  }

  /** After a write that failed the bytes it got to are there exactly when each lies on a page
      that was resident, or is zero: the pages allocated for the write were given back. */
  lemma FailedWriteKeeps(r: Pages, offset: nat, data: seq<uint8>)
    requires WholePages(r)
    ensures (forall i :: 0 <= i < |data| ==> At(Written(r, map[], offset, data), offset + i) == data[i])
       <==> (forall i :: 0 <= i < |data| ==> (offset + i) / B_PAGE_SIZE in r || data[i] == 0)
  {
    forall i | 0 <= i < |data|
      ensures At(Written(r, map[], offset, data), offset + i) == if (offset + i) / B_PAGE_SIZE in r then data[i] else 0
    {
      var a := offset + i;
      assert a == a / B_PAGE_SIZE * B_PAGE_SIZE + a % B_PAGE_SIZE;
    }
  }

  // ---------- appending ----------

  /** Every page that holds a byte of the file is resident. */
  ghost predicate Dense(r: Pages, size: nat) {
    forall a: nat :: a < size ==> a / B_PAGE_SIZE in r
  }

  /** Appending to a dense file adds the data and keeps the file dense, whatever the blank
      pages held. */
  lemma AppendAdds(r: Pages, blank: Pages, size: nat, data: seq<uint8>)
    requires WholePages(r) && FreshFor(blank, r, size, |data|) && Dense(r, size)
    ensures Contents(Written(r, blank, size, data), size + |data|) == Contents(r, size) + data
    ensures Dense(Written(r, blank, size, data), size + |data|)
  {
    var c := Contents(Written(r, blank, size, data), size + |data|);
    forall a: nat | a < size + |data|
      ensures c[a] == (Contents(r, size) + data)[a] && a / B_PAGE_SIZE in r.Keys + blank.Keys
    {
      WrittenAt(r, blank, size, data, a);
      if size <= a { TouchedHolds(a, size, |data|); }
    }
  }

  // One append of a run: the bytes, and what the pages allocated for it held.
  datatype Append = Append(data: seq<uint8>, blank: Pages)

  /** The appends are possible one after the other from r and size. */
  ghost predicate Appendable(r: Pages, size: nat, run: seq<Append>)
    requires WholePages(r)
    decreases |run|
  {
    run != [] ==>
      && FreshFor(run[0].blank, r, size, |run[0].data|)
      && Appendable(Written(r, run[0].blank, size, run[0].data), size + |run[0].data|, run[1..])
  }

  ghost function AfterRun(r: Pages, size: nat, run: seq<Append>): (Pages, nat)
    requires WholePages(r) && Appendable(r, size, run)
    ensures WholePages(AfterRun(r, size, run).0)
    decreases |run|
  {
    if run == [] then (r, size)
    else AfterRun(Written(r, run[0].blank, size, run[0].data), size + |run[0].data|, run[1..])
  }

  function Joined(run: seq<Append>): seq<uint8>
    decreases |run|
  {
    if run == [] then [] else run[0].data + Joined(run[1..])
  }

  lemma {:induction false} AppendsAdd(r: Pages, size: nat, run: seq<Append>)
    requires WholePages(r) && Appendable(r, size, run) && Dense(r, size)
    ensures var (t, n) := AfterRun(r, size, run);
            Dense(t, n) && Contents(t, n) == Contents(r, size) + Joined(run)
    decreases |run|
  {
    if run != [] {
      var a := run[0];
      AppendAdds(r, a.blank, size, a.data);
      AppendsAdd(Written(r, a.blank, size, a.data), size + |a.data|, run[1..]);
      assert Contents(r, size) + a.data + Joined(run[1..]) == Contents(r, size) + Joined(run);
    }
  }

  /** From an empty file, any run of appends leaves exactly the appended bytes, in order. */
  lemma AppendsConcatenate(run: seq<Append>)
    requires Appendable(map[], 0, run)
    ensures var (t, n) := AfterRun(map[], 0, run); Contents(t, n) == Joined(run)
  {
    AppendsAdd(map[], 0, run);
  }
}
