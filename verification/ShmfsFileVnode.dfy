/** A file whose bytes live in the pages of a cache: the transfer loop, and the gathering and
    settling of the pages it works on. Physical pages are named by handles. */
module ShmfsFileVnode {
  import opened Basics
  import opened Bytes
  import opened FlatFile

  // A serial number, and the page number for which the page was allocated.
  datatype PageRef = PageRef(n: int, number: nat)

  // `at` is the page number in the cache, None while the page is in no cache.
  datatype VmPage = VmPage(data: Page, at: Option<nat>, busy: bool, modified: bool)

  type Cache = map<nat, PageRef>
  type Frames = map<PageRef, VmPage>
  type Slots = seq<Option<PageRef>>

  datatype Status = OK | BadValue | NoMemory | BadAddress

  // ---------- the pages between transfers ----------

  ghost predicate InCache(c: Cache, f: Frames, k: nat)
    requires k in c
  {
    c[k] in f && c[k].number == k && f[c[k]].at == Some(k) && |f[c[k]].data| == B_PAGE_SIZE
  }

  ghost predicate CacheOk(c: Cache, f: Frames) {
    forall k {:trigger InCache(c, f, k)} :: k in c ==> InCache(c, f, k)
  }

  /** p is not busy and is in the cache under its own page number. */
  ghost predicate Settled(c: Cache, f: Frames, p: PageRef)
    requires p in f
  {
    !f[p].busy && f[p].at.Some? && f[p].at.value in c && c[f[p].at.value] == p
  }

  ghost predicate AllSettled(c: Cache, f: Frames) {
    forall p {:trigger Settled(c, f, p)} :: p in f ==> Settled(c, f, p)
  }

  ghost function Resident(c: Cache, f: Frames): (r: Pages)
    requires CacheOk(c, f)
    ensures WholePages(r) && r.Keys == c.Keys
  {
    assert forall k <- c :: InCache(c, f, k);
    map k | k in c :: f[c[k]].data
  }

  predicate Given(p: PageRef, n: int) { p.n < n }

  ghost predicate AllGiven(f: Frames, n: int) {
    forall p {:trigger Given(p, n)} :: p in f ==> Given(p, n)
  }

  lemma StillGiven(f: Frames, g: Frames, n: int)
    requires AllGiven(f, n) && g.Keys <= f.Keys
    ensures AllGiven(g, n)
  {
    forall p | p in g ensures Given(p, n) { assert p in f && Given(p, n); }
  }

  // ---------- the pages during a transfer ----------

  function InRange(at: Option<nat>, first: nat, count: nat): bool {
    at.Some? && first <= at.value < first + count
  }

  /** The frames with those of page numbers [first, first + count) busy. */
  function Busied(f: Frames, first: nat, count: nat): Frames {
    map p | p in f :: f[p].(busy := InRange(f[p].at, first, count))
  }

  /** How many of the page numbers [first, first + count) are absent. */
  function Missing(c: Cache, first: nat, count: nat): nat {
    if count == 0 then 0 else Missing(c, first, count - 1) + if first + count - 1 in c then 0 else 1
  }

  function Found(c: Cache, k: nat): Option<PageRef> {
    if k in c then Some(c[k]) else None
  }

  // What the page allocator's next page for page number k happens to hold.
  type Junk = nat -> Page

  ghost predicate WholeJunk(junk: Junk) {
    forall k: nat :: |junk(k)| == B_PAGE_SIZE
  }

  /** The first m slots have their pages: those of the cache, and new ones where it has none.
      f are the frames before the new ones came, g those with them. */
  ghost predicate Gathered(c: Cache, f: Frames, g: Frames, first: nat, s: Slots, m: nat, junk: Junk)
    requires m <= |s|
  {
    && (forall p <- f :: p in g && g[p] == f[p])
    && (forall i {:trigger s[i]} :: m <= i < |s| ==> s[i] == Found(c, first + i))
    && (forall i {:trigger s[i]} :: 0 <= i < m ==>
          if first + i in c then s[i] == Some(c[first + i])
          else s[i].Some? && s[i].value.number == first + i && s[i].value !in f && s[i].value in g
               && g[s[i].value] == VmPage(junk(first + i), None, true, false))
    && (forall p <- g :: p in f || FillsSlot(first, s, m, p))
  }

  /** p was allocated for one of the first m slots. */
  predicate FillsSlot(first: nat, s: Slots, m: nat, p: PageRef)
    requires m <= |s|
  {
    first <= p.number < first + m && s[p.number - first] == Some(p)
  }

  lemma {:induction false} NoneMissing(c: Cache, first: nat, i: nat, count: nat)
    requires i <= count && Missing(c, first, count) <= Missing(c, first, i)
    ensures Missing(c, first, count) == Missing(c, first, i)
    ensures forall k :: first + i <= k < first + count ==> k in c
    decreases count - i
  {
    if i < count {
      MissingGrows(c, first, i, count - 1);
      NoneMissing(c, first, i, count - 1);
    }
  }

  lemma {:induction false} MissingGrows(c: Cache, first: nat, i: nat, count: nat)
    requires i <= count
    ensures Missing(c, first, i) <= Missing(c, first, count)
    decreases count - i
  {
    if i < count {
      MissingGrows(c, first, i, count - 1);
    }
  }

  /** Every filled slot has a whole page, allocated for the page number of that slot. */
  ghost predicate SlotsHold(g: Frames, first: nat, s: Slots) {
    forall i {:trigger s[i]} :: 0 <= i < |s| && s[i].Some? ==>
      s[i].value.number == first + i && s[i].value in g && |g[s[i].value].data| == B_PAGE_SIZE
  }

  /** The byte at address a as the slots show it; an empty slot shows zeros. */
  ghost function SlotByte(g: Frames, s: Slots, offset: nat, a: nat): uint8
    requires offset / B_PAGE_SIZE <= a / B_PAGE_SIZE < offset / B_PAGE_SIZE + |s|
    requires SlotsHold(g, offset / B_PAGE_SIZE, s)
  {
    var slot := s[a / B_PAGE_SIZE - offset / B_PAGE_SIZE];
    if slot.Some? then g[slot.value].data[a % B_PAGE_SIZE] else 0
  }

  /** h is g with `data`, which belongs at offset, laid over the pages in the slots. */
  ghost predicate Stored(g: Frames, h: Frames, s: Slots, offset: nat, data: seq<uint8>)
    requires SlotsHold(g, offset / B_PAGE_SIZE, s)
  {
    && h.Keys == g.Keys
    && forall p {:trigger StoredAt(g, h, s, offset, data, p)} :: p in g ==> StoredAt(g, h, s, offset, data, p)
  }

  ghost predicate StoredAt(g: Frames, h: Frames, s: Slots, offset: nat, data: seq<uint8>, p: PageRef)
    requires SlotsHold(g, offset / B_PAGE_SIZE, s) && h.Keys == g.Keys && p in g
  {
    && h[p].at == g[p].at && h[p].busy == g[p].busy
    && if FillsSlot(offset / B_PAGE_SIZE, s, |s|, p) then
         s[p.number - offset / B_PAGE_SIZE] == Some(p) && h[p].data == Overlay(g[p].data, p.number, offset, data)
       else h[p].data == g[p].data
  }

  function WithBytes(f: Frames, page: PageRef, at: nat, data: seq<uint8>): Frames
    requires page in f && at + |data| <= |f[page].data|
  {
    var d := f[page].data;
    f[page := f[page].(data := d[..at] + data + d[at + |data|..], modified := true)]
  }

  lemma SlotStored(g: Frames, h: Frames, s: Slots, offset: nat, data: seq<uint8>, index: nat)
    requires SlotsHold(g, offset / B_PAGE_SIZE, s) && Stored(g, h, s, offset, data)
    requires index < |s| && s[index].Some?
    ensures var p := s[index].value;
            && p in h && p.number == offset / B_PAGE_SIZE + index
            && h[p].data == Overlay(g[p].data, p.number, offset, data)
  {
    var p := s[index].value;
    assert FillsSlot(offset / B_PAGE_SIZE, s, |s|, p);
    assert StoredAt(g, h, s, offset, data, p);
  }

  lemma NothingStored(g: Frames, s: Slots, offset: nat)
    requires SlotsHold(g, offset / B_PAGE_SIZE, s)
    ensures Stored(g, g, s, offset, [])
  {
    forall p | p in g ensures StoredAt(g, g, s, offset, [], p) {
      if FillsSlot(offset / B_PAGE_SIZE, s, |s|, p) {
        assert s[p.number - offset / B_PAGE_SIZE] == Some(p);
        assert Overlay(g[p].data, p.number, offset, []) == g[p].data;
      }
    }
  }

  /** Where the j-th byte of a chunk lies. */
  lemma ChunkAddress(offset: nat, done: nat, index: nat, at: nat, j: nat)
    requires offset + done == (offset / B_PAGE_SIZE + index) * B_PAGE_SIZE + at && at + j < B_PAGE_SIZE
    ensures (offset + done + j) / B_PAGE_SIZE == offset / B_PAGE_SIZE + index
    ensures (offset + done + j) % B_PAGE_SIZE == at + j
  {
  }

  /** The bytes in [offset, offset + n) as the slots show them. */
  ghost predicate ShownBySlots(g: Frames, s: Slots, offset: nat, out: seq<uint8>)
    requires SlotsHold(g, offset / B_PAGE_SIZE, s)
  {
    forall i {:trigger out[i]} :: 0 <= i < |out| ==>
      && (offset + i) / B_PAGE_SIZE < offset / B_PAGE_SIZE + |s|
      && out[i] == SlotByte(g, s, offset, offset + i)
  }

  lemma ShownMore(g: Frames, s: Slots, offset: nat, out: seq<uint8>, index: nat, at: nat, n: nat)
    requires SlotsHold(g, offset / B_PAGE_SIZE, s) && ShownBySlots(g, s, offset, out)
    requires index < |s| && at + n <= B_PAGE_SIZE
    requires offset + |out| == (offset / B_PAGE_SIZE + index) * B_PAGE_SIZE + at
    ensures ShownBySlots(g, s, offset, out + if s[index].Some? then g[s[index].value].data[at..at + n] else Zeros(n))
  {
    var more := if s[index].Some? then g[s[index].value].data[at..at + n] else Zeros(n);
    forall i | |out| <= i < |out + more|
      ensures (offset + i) / B_PAGE_SIZE == offset / B_PAGE_SIZE + index
      ensures (out + more)[i] == SlotByte(g, s, offset, offset + i)
    {
      ChunkAddress(offset, |out|, index, at, i - |out|);
    }
  }

  /** Storing the next stretch of bytes into the page of its slot. */
  lemma StoredMore(g: Frames, h: Frames, t: Frames, s: Slots, offset: nat, data: seq<uint8>, done: nat, more: nat, at: nat, index: nat)
    requires SlotsHold(g, offset / B_PAGE_SIZE, s) && done + more <= |data|
    requires Stored(g, h, s, offset, data[..done])
    requires index < |s| && s[index].Some? && s[index].value in h && |h[s[index].value].data| == B_PAGE_SIZE
    requires at + more <= B_PAGE_SIZE && offset + done == (offset / B_PAGE_SIZE + index) * B_PAGE_SIZE + at
    requires t == WithBytes(h, s[index].value, at, data[done..done + more])
    ensures Stored(g, t, s, offset, data[..done + more])
  {
    var page := s[index].value;
    SlotStored(g, h, s, offset, data[..done], index);
    OverlayStep(g[page].data, page.number, offset, data, done, more, at);
    forall p | p in g && p != page ensures StoredAt(g, t, s, offset, data[..done + more], p) {
      assert StoredAt(g, h, s, offset, data[..done], p);
      if FillsSlot(offset / B_PAGE_SIZE, s, |s|, p) {
        assert s[p.number - offset / B_PAGE_SIZE] == Some(p);
        OverlayElsewhere(g[p].data, p.number, page.number, offset, data, done, more, at);
      }
    }
    assert StoredAt(g, h, s, offset, data[..done], page);
    assert StoredAt(g, t, s, offset, data[..done + more], page);
  }

  // ---------- settling the pages ----------

  /** A slot holds the cache's page, or a page that is in no cache yet. */
  ghost predicate SlotsMatch(c: Cache, h: Frames, first: nat, s: Slots) {
    forall i {:trigger s[i]} :: 0 <= i < |s| && s[i].Some? ==>
      && s[i].value in h && s[i].value.number == first + i
      && if first + i in c then c[first + i] == s[i].value && h[s[i].value].at == Some(first + i)
         else h[s[i].value].at == None
  }

  predicate SlotFilled(first: nat, s: Slots, m: nat, k: nat)
    requires m <= |s|
  {
    first <= k < first + m && s[k - first].Some?
  }

  /** The cache and the frames when the first m slots have been settled. */
  function CacheAfter(c: Cache, first: nat, s: Slots, m: nat, success: bool): Cache
    requires m <= |s|
  {
    if m == 0 || !success then c
    else
      var b := CacheAfter(c, first, s, m - 1, success);
      if s[m - 1].Some? then b[first + m - 1 := s[m - 1].value] else b
  }

  lemma {:induction false} CacheAfterAt(c: Cache, first: nat, s: Slots, m: nat, success: bool, k: nat)
    requires m <= |s|
    ensures var b := CacheAfter(c, first, s, m, success);
            && (k in b <==> k in c || (success && SlotFilled(first, s, m, k)))
            && (k in b ==> b[k] == if success && SlotFilled(first, s, m, k) then s[k - first].value else c[k])
    decreases m
  {
    if m > 0 {
      CacheAfterAt(c, first, s, m - 1, success, k);
    }
  }

  function FramesAfter(h: Frames, first: nat, s: Slots, m: nat, success: bool): Frames
    requires m <= |s|
  {
    map p | p in h && (FillsSlot(first, s, m, p) && h[p].at.None? ==> success) ::
      if FillsSlot(first, s, m, p) then h[p].(at := Some(p.number), busy := false) else h[p]
  }

  /** A slot's page that is in no cache yet. */
  predicate IsNew(f: Frames, page: Option<PageRef>) {
    page.Some? && page.value in f && f[page.value].at.None?
  }

  /** How many of the first m slots have such a page. */
  function NewSlots(h: Frames, s: Slots, m: nat): nat
    requires m <= |s|
  {
    if m == 0 then 0 else NewSlots(h, s, m - 1) + if IsNew(h, s[m - 1]) then 1 else 0
  }

  /** The cache when one more slot, for page number k, is settled. */
  function SlotCache(c: Cache, f: Frames, k: nat, page: Option<PageRef>, success: bool): Cache {
    if IsNew(f, page) && success then c[k := page.value] else c
  }

  /** The frames then. */
  function SlotFrames(f: Frames, k: nat, page: Option<PageRef>, success: bool): Frames {
    if page.None? || page.value !in f then f
    else if !IsNew(f, page) then f[page.value := f[page.value].(busy := false)]
    else if success then f[page.value := f[page.value].(at := Some(k), busy := false)]
    else f - {page.value}
  }

  lemma PutStepCache(c: Cache, h: Frames, first: nat, s: Slots, m: nat, success: bool)
    requires m < |s| && SlotsMatch(c, h, first, s)
    ensures var b := CacheAfter(c, first, s, m, success);
            && (first + m in b <==> first + m in c)
            && CacheAfter(c, first, s, m + 1, success) == SlotCache(b, h, first + m, s[m], success)
  {
    CacheAfterAt(c, first, s, m, success, first + m);
  }

  lemma PutStepFrames(c: Cache, h: Frames, first: nat, s: Slots, m: nat, success: bool)
    requires m < |s| && SlotsMatch(c, h, first, s)
    ensures var g := FramesAfter(h, first, s, m, success);
            && FramesAfter(h, first, s, m + 1, success) == SlotFrames(g, first + m, s[m], success)
            && (s[m].Some? ==> s[m].value in g) && (IsNew(g, s[m]) <==> IsNew(h, s[m]))
  {
    FillsOneMore(h, first, s, m);
  }

  /** What settling slot m does to the cache and the frames, and to how many new pages there are. */
  lemma PutStep(c: Cache, h: Frames, first: nat, s: Slots, m: nat, success: bool)
    requires m < |s| && SlotsMatch(c, h, first, s)
    ensures var b, g := CacheAfter(c, first, s, m, success), FramesAfter(h, first, s, m, success);
            && CacheAfter(c, first, s, m + 1, success) == SlotCache(b, g, first + m, s[m], success)
            && FramesAfter(h, first, s, m + 1, success) == SlotFrames(g, first + m, s[m], success)
            && NewSlots(h, s, m + 1) == NewSlots(h, s, m) + (if IsNew(g, s[m]) then 1 else 0)
            && (s[m].Some? ==> s[m].value in g) && (IsNew(g, s[m]) ==> first + m !in b)
  {
    PutStepCache(c, h, first, s, m, success);
    PutStepFrames(c, h, first, s, m, success);
  }

  lemma FillsOneMore(h: Frames, first: nat, s: Slots, m: nat)
    requires m < |s|
    ensures forall p :: FillsSlot(first, s, m + 1, p) <==> FillsSlot(first, s, m, p) || (s[m] == Some(p) && p.number == first + m)
  {
  }

  // ---------- what a transfer amounts to ----------

  /** The slots right after _GetPages. */
  lemma GatheredSlots(c: Cache, f: Frames, g: Frames, first: nat, s: Slots, m: nat, junk: Junk)
    requires CacheOk(c, f) && AllSettled(c, f) && WholeJunk(junk)
    requires (m == |s| || m == 0) && Gathered(c, Busied(f, first, |s|), g, first, s, m, junk)
    ensures SlotsHold(g, first, s) && SlotsMatch(c, g, first, s)
    ensures m == |s| ==> forall i :: 0 <= i < |s| ==> s[i].Some?
    ensures NewSlots(g, s, |s|) == if m == 0 then 0 else Missing(c, first, |s|)
  {
    var busied := Busied(f, first, |s|);
    forall i | 0 <= i < |s| && s[i].Some?
      ensures s[i].value in g && s[i].value.number == first + i && |g[s[i].value].data| == B_PAGE_SIZE
      ensures if first + i in c then c[first + i] == s[i].value && g[s[i].value].at == Some(first + i)
              else g[s[i].value].at == None
    {
      if first + i in c {
        assert InCache(c, f, first + i) && c[first + i] in busied;
      }
    }
    CountNewSlots(c, f, g, first, s, m, junk, |s|);
  }

  lemma {:induction false} CountNewSlots(c: Cache, f: Frames, g: Frames, first: nat, s: Slots, m: nat, junk: Junk, n: nat)
    requires CacheOk(c, f) && n <= |s|
    requires (m == |s| || m == 0) && Gathered(c, Busied(f, first, |s|), g, first, s, m, junk)
    ensures NewSlots(g, s, n) == if m == 0 then 0 else Missing(c, first, n)
    decreases n
  {
    if n > 0 {
      CountNewSlots(c, f, g, first, s, m, junk, n - 1);
      assert first + n - 1 in c ==> InCache(c, f, first + n - 1);
    }
  }

  /** c and f were in order, g are the frames after _GetPages filled the slots s, and h those
      after `data` was stored through them. */
  ghost predicate InTransfer(c: Cache, f: Frames, g: Frames, h: Frames, s: Slots, offset: nat, length: nat,
                             isWrite: bool, junk: Junk, data: seq<uint8>) {
    var first := offset / B_PAGE_SIZE;
    && CacheOk(c, f) && AllSettled(c, f) && WholeJunk(junk)
    && |s| == PageCount(offset, length) && |data| <= length
    && Gathered(c, Busied(f, first, |s|), g, first, s, if isWrite then |s| else 0, junk)
    && SlotsHold(g, first, s) && SlotsMatch(c, g, first, s)
    && Stored(g, h, s, offset, data)
  }

  /** The pages that the transfer adds, as they came from the page allocator. */
  ghost function NewPages(c: Cache, first: nat, count: nat, junk: Junk): Pages {
    map k: nat | first <= k < first + count && k !in c :: junk(k)
  }

  /** Page k of the cache after a transfer that leaves new pages in if `keep`. */
  lemma PageAfter(c: Cache, f: Frames, g: Frames, h: Frames, s: Slots, offset: nat, length: nat,
                  isWrite: bool, junk: Junk, data: seq<uint8>, keep: bool, k: nat)
    requires InTransfer(c, f, g, h, s, offset, length, isWrite, junk, data)
    ensures var first := offset / B_PAGE_SIZE;
            var b, t := CacheAfter(c, first, s, |s|, keep), FramesAfter(h, first, s, |s|, keep);
            var blank := if isWrite && keep then NewPages(c, first, |s|, junk) else map[];
            && (k in b <==> k in c || k in blank)
            && (k in b ==> InCache(b, t, k) && !t[b[k]].busy)
            && (k in b ==> t[b[k]].data == Overlay(if k in c then Resident(c, f)[k] else blank[k], k, offset, data))
  {
    var first := offset / B_PAGE_SIZE;
    if k in c {
      OldPage(c, f, g, h, s, offset, length, isWrite, junk, data, k);
      OldPageSettled(c, h, first, s, keep, k);
    } else {
      CacheAfterAt(c, first, s, |s|, keep, k);
      if SlotFilled(first, s, |s|, k) {
        NewPage(c, f, g, h, s, offset, length, isWrite, junk, data, k);
      }
    }
  }

  lemma OldPageSettled(c: Cache, h: Frames, first: nat, s: Slots, keep: bool, k: nat)
    requires k in c && c[k] in h && c[k].number == k && h[c[k]].at == Some(k)
    requires FillsSlot(first, s, |s|, c[k]) <==> first <= k < first + |s|
    requires h[c[k]].busy ==> FillsSlot(first, s, |s|, c[k])
    requires |h[c[k]].data| == B_PAGE_SIZE
    ensures var b, t := CacheAfter(c, first, s, |s|, keep), FramesAfter(h, first, s, |s|, keep);
            k in b && InCache(b, t, k) && !t[b[k]].busy && t[b[k]].data == h[c[k]].data
  {
    CacheAfterAt(c, first, s, |s|, keep, k);
  }

  /** A page that was in the cache, before it is settled. */
  lemma OldPage(c: Cache, f: Frames, g: Frames, h: Frames, s: Slots, offset: nat, length: nat,
                isWrite: bool, junk: Junk, data: seq<uint8>, k: nat)
    requires InTransfer(c, f, g, h, s, offset, length, isWrite, junk, data) && k in c
    ensures var first, p := offset / B_PAGE_SIZE, c[k];
            && p in h && p.number == k && h[p].at == Some(k)
            && (FillsSlot(first, s, |s|, p) <==> first <= k < first + |s|)
            && (h[p].busy ==> FillsSlot(first, s, |s|, p))
            && h[p].data == Overlay(Resident(c, f)[k], k, offset, data)
  {
    assert InCache(c, f, k) && Settled(c, f, c[k]);
    assert StoredAt(g, h, s, offset, data, c[k]);
    if !Touched(k, offset, |data|) { OverlayUntouched(f[c[k]].data, k, offset, data); }
  }

  /** A page that came with the transfer, before it is settled. */
  lemma NewPage(c: Cache, f: Frames, g: Frames, h: Frames, s: Slots, offset: nat, length: nat,
                isWrite: bool, junk: Junk, data: seq<uint8>, k: nat)
    requires InTransfer(c, f, g, h, s, offset, length, isWrite, junk, data)
    requires k !in c && SlotFilled(offset / B_PAGE_SIZE, s, |s|, k)
    ensures var p := s[k - offset / B_PAGE_SIZE].value;
            && isWrite && p in h && p.number == k && h[p].at == None
            && h[p].data == Overlay(junk(k), k, offset, data)
  {
    assert StoredAt(g, h, s, offset, data, s[k - offset / B_PAGE_SIZE].value);
  }

  /** After a transfer all pages are settled again, and the resident bytes are those before it
      with the data written over them. */
  lemma AfterTransfer(c: Cache, f: Frames, g: Frames, h: Frames, s: Slots, offset: nat, length: nat,
                      isWrite: bool, junk: Junk, data: seq<uint8>, keep: bool)
    requires InTransfer(c, f, g, h, s, offset, length, isWrite, junk, data)
    ensures var first := offset / B_PAGE_SIZE;
            var b, t := CacheAfter(c, first, s, |s|, keep), FramesAfter(h, first, s, |s|, keep);
            var blank := if isWrite && keep then NewPages(c, first, |s|, junk) else map[];
            && CacheOk(b, t) && AllSettled(b, t)
            && Resident(b, t) == Written(Resident(c, f), blank, offset, data)
  {
    var first := offset / B_PAGE_SIZE;
    var b, t := CacheAfter(c, first, s, |s|, keep), FramesAfter(h, first, s, |s|, keep);
    var blank := if isWrite && keep then NewPages(c, first, |s|, junk) else map[];
    forall k: nat ensures PageIs(b, t, Resident(c, f), blank, offset, data, k) {
      PageAfter(c, f, g, h, s, offset, length, isWrite, junk, data, keep, k);
    }
    ResidentIs(b, t, Resident(c, f), blank, offset, data);
    forall p | p in t ensures Settled(b, t, p) {
      PageSettled(c, f, g, h, s, offset, length, isWrite, junk, data, keep, p);
    }
  }

  /** Page k of b and t is page k of r, or else the blank one, with data laid over it. */
  ghost predicate PageIs(b: Cache, t: Frames, r: Pages, blank: Pages, offset: nat, data: seq<uint8>, k: nat)
    requires WholePages(r) && WholePages(blank)
  {
    && (k in b <==> k in r || k in blank)
    && (k in b ==> InCache(b, t, k) && t[b[k]].data == Overlay(Base(r, blank, k), k, offset, data))
  }

  lemma ResidentIs(b: Cache, t: Frames, r: Pages, blank: Pages, offset: nat, data: seq<uint8>)
    requires WholePages(r) && WholePages(blank)
    requires forall k: nat {:trigger PageIs(b, t, r, blank, offset, data, k)} :: PageIs(b, t, r, blank, offset, data, k)
    ensures CacheOk(b, t) && Resident(b, t) == Written(r, blank, offset, data)
  {
    forall k | k in b ensures InCache(b, t, k) { assert PageIs(b, t, r, blank, offset, data, k); }
    var x, y := Resident(b, t), Written(r, blank, offset, data);
    forall k: nat ensures (k in x <==> k in y) && (k in x ==> x[k] == y[k]) {
      assert PageIs(b, t, r, blank, offset, data, k);
    }
    assert x.Keys == y.Keys;
  }

  lemma PageSettled(c: Cache, f: Frames, g: Frames, h: Frames, s: Slots, offset: nat, length: nat,
                    isWrite: bool, junk: Junk, data: seq<uint8>, keep: bool, p: PageRef)
    requires InTransfer(c, f, g, h, s, offset, length, isWrite, junk, data)
    requires p in FramesAfter(h, offset / B_PAGE_SIZE, s, |s|, keep)
    ensures var first := offset / B_PAGE_SIZE;
            Settled(CacheAfter(c, first, s, |s|, keep), FramesAfter(h, first, s, |s|, keep), p)
  {
    var first := offset / B_PAGE_SIZE;
    if FillsSlot(first, s, |s|, p) {
      SlotSettled(c, h, first, s, keep, p) by {
        assert StoredAt(g, h, s, offset, data, p);
      }
    } else {
      PageNotInSlots(c, f, g, h, s, offset, length, isWrite, junk, data, p);
      CacheAfterAt(c, first, s, |s|, keep, p.number);
    }
  }

  /** A page that fills a slot is settled along with the slot. */
  lemma SlotSettled(c: Cache, h: Frames, first: nat, s: Slots, keep: bool, p: PageRef)
    requires FillsSlot(first, s, |s|, p) && p in FramesAfter(h, first, s, |s|, keep)
    requires p.number !in c ==> h[p].at == None
    requires p.number in c ==> c[p.number] == p
    ensures Settled(CacheAfter(c, first, s, |s|, keep), FramesAfter(h, first, s, |s|, keep), p)
  {
    CacheAfterAt(c, first, s, |s|, keep, p.number);
  }

  lemma PageNotInSlots(c: Cache, f: Frames, g: Frames, h: Frames, s: Slots, offset: nat, length: nat,
                       isWrite: bool, junk: Junk, data: seq<uint8>, p: PageRef)
    requires InTransfer(c, f, g, h, s, offset, length, isWrite, junk, data)
    requires p in h && !FillsSlot(offset / B_PAGE_SIZE, s, |s|, p)
    ensures p.number in c && c[p.number] == p && !SlotFilled(offset / B_PAGE_SIZE, s, |s|, p.number)
    ensures h[p].at == Some(p.number) && !h[p].busy
  {
    var first := offset / B_PAGE_SIZE;
    assert StoredAt(g, h, s, offset, data, p);
    assert p in Busied(f, first, |s|) && p in f;
    assert Settled(c, f, p) && InCache(c, f, f[p].at.value);
  }

  /** What a read takes from the slots is what the file shows. */
  lemma ShownIsRead(c: Cache, f: Frames, g: Frames, s: Slots, offset: nat, length: nat, junk: Junk, out: seq<uint8>)
    requires InTransfer(c, f, g, g, s, offset, length, false, junk, [])
    requires ShownBySlots(g, s, offset, out)
    ensures forall i :: 0 <= i < |out| ==> out[i] == At(Resident(c, f), offset + i)
  {
    forall i | 0 <= i < |out| ensures out[i] == At(Resident(c, f), offset + i) {
      var k := (offset + i) / B_PAGE_SIZE;
      var byte, j := out[i], k - offset / B_PAGE_SIZE;
      assert byte == SlotByte(g, s, offset, offset + i);
      assert s[j] == Found(c, offset / B_PAGE_SIZE + j);
      assert k in c ==> InCache(c, f, k) && c[k] in Busied(f, offset / B_PAGE_SIZE, |s|);
    }
  }

  /** Storing bytes does not change which slots are new. */
  lemma StoredMatches(c: Cache, g: Frames, h: Frames, first: nat, s: Slots, offset: nat, data: seq<uint8>)
    requires first == offset / B_PAGE_SIZE && SlotsHold(g, first, s) && SlotsMatch(c, g, first, s) && Stored(g, h, s, offset, data)
    ensures SlotsMatch(c, h, first, s)
    ensures NewSlots(h, s, |s|) == NewSlots(g, s, |s|)
  {
    forall p | p in g ensures h[p].at == g[p].at { assert StoredAt(g, h, s, offset, data, p); }
    SameNewSlots(g, h, s, |s|);
  }

  lemma {:induction false} SameNewSlots(g: Frames, h: Frames, s: Slots, n: nat)
    requires n <= |s| && g.Keys == h.Keys && forall p <- g :: h[p].at == g[p].at
    ensures NewSlots(h, s, n) == NewSlots(g, s, n)
    decreases n
  {
    if n > 0 { SameNewSlots(g, h, s, n - 1); }
  }

  /** What Written comes to, page by page and byte by byte, when new pages stay only if `ok`. */
  lemma WriteOutcome(c: Cache, r: Pages, at: nat, length: nat, data: seq<uint8>, ok: bool, junk: Junk, t: Pages)
    requires WholePages(r) && c.Keys == r.Keys && WholeJunk(junk) && |data| <= length
    requires t == Written(r, if ok then NewPages(c, at / B_PAGE_SIZE, PageCount(at, length), junk) else map[], at, data)
    ensures forall k: nat :: k in t <==> k in r || (ok && k * 4096 < at + length && at < (k + 1) * 4096)
    ensures forall k <- t :: t[k] == Overlay(if k in r then r[k] else junk(k), k, at, data)
    ensures forall k <- r :: (k + 1) * 4096 <= at || at + length <= k * 4096 ==> t[k] == r[k]
  {
    forall k: nat
      ensures k in t <==> k in r || (ok && k * 4096 < at + length && at < (k + 1) * 4096)
      ensures k in r && ((k + 1) * 4096 <= at || at + length <= k * 4096) ==> t[k] == r[k]
    {
      TouchedIff(k, at, length);
      if k in r && ((k + 1) * 4096 <= at || at + length <= k * 4096) {
        OverlayApart(r[k], k, at, data);
      }
    }
  }

  class FileVnode {
    var fDataSize: nat
    var fCache: Cache
    // The physical pages this file has, and the next handle.
    var frames: Frames
    var nextPage: int
    // Pages taken from the page allocator, and given back to it.
    ghost var taken: nat
    ghost var freed: nat

    ghost predicate Valid()
      reads this
    {
      && CacheOk(fCache, frames) && AllSettled(fCache, frames) && AllGiven(frames, nextPage)
      && taken == freed + |fCache|
    }

    /** _GetPages, first loop: pages that are there are marked busy. */
    method LookUpPages(first: nat, count: nat, pages: array<Option<PageRef>>) returns (missing: nat)
      requires CacheOk(fCache, frames) && AllSettled(fCache, frames) && pages.Length == count
      modifies `frames, pages
      ensures frames == Busied(old(frames), first, count)
      ensures forall i :: 0 <= i < count ==> pages[i] == Found(fCache, first + i)
      ensures missing == Missing(fCache, first, count)
    {
      ghost var f := frames;
      var length, index := count * B_PAGE_SIZE, 0;
      missing := 0;
      assert frames == Busied(f, first, 0) by {
        assert forall p <- f :: Settled(fCache, f, p);
      }
      while length > 0
        invariant 0 <= index <= count && length == (count - index) * B_PAGE_SIZE
        invariant frames == Busied(f, first, index)
        invariant forall i :: 0 <= i < index ==> pages[i] == Found(fCache, first + i)
        invariant missing == Missing(fCache, first, index)
      {
        var page := Found(fCache, first + index);
        if page.Some? {
          assert InCache(fCache, f, first + index);
          MarkBusy(page.value, f, first, index);
        } else {
          missing := missing + 1;
          assert frames == Busied(f, first, index + 1) by {
            assert forall p <- f :: Settled(fCache, f, p);
          }
        }
        pages[index] := page;
        index := index + 1;
        length := length - B_PAGE_SIZE;
      }
    }

    method MarkBusy(page: PageRef, ghost f: Frames, first: nat, index: nat)
      requires CacheOk(fCache, f) && AllSettled(fCache, f) && frames == Busied(f, first, index)
      requires page in f && f[page].at == Some(first + index)
      modifies `frames
      ensures frames == Busied(f, first, index + 1)
    {
      assert forall p <- f :: Settled(fCache, f, p);
      assert Settled(fCache, f, page);
      frames := frames[page := frames[page].(busy := true)];
    }

    /** _GetPages, second loop, for a write: a page is allocated for every empty slot, and the
        loop stops with the last of them. */
    method AllocateMissing(first: nat, pages: array<Option<PageRef>>, missing: nat, junk: Junk)
      requires missing > 0 && missing == Missing(fCache, first, pages.Length)
      requires WholeJunk(junk) && AllGiven(frames, nextPage)
      requires forall i :: 0 <= i < pages.Length ==> pages[i] == Found(fCache, first + i)
      modifies `frames, `nextPage, `taken, pages
      ensures Gathered(fCache, old(frames), frames, first, pages[..], pages.Length, junk)
      ensures AllGiven(frames, nextPage) && taken == old(taken) + missing
    {
      ghost var f := frames;
      var left := missing;
      for i := 0 to pages.Length
        invariant left > 0 && left + Missing(fCache, first, i) == missing
        invariant Gathered(fCache, f, frames, first, pages[..], i, junk)
        invariant AllGiven(frames, nextPage) && taken + left == old(taken) + missing
      {
        if pages[i].Some? {
          KeepSlot(fCache, f, frames, first, pages[..], i, junk);
          continue;
        }
        FillSlot(first, pages, i, junk, f);
        left := left - 1;
        if left == 0 {
          NoneMissing(fCache, first, i + 1, pages.Length);
          AllGathered(fCache, f, frames, first, pages[..], i + 1, junk);
          break;
        }
      }
    }

    method FillSlot(first: nat, pages: array<Option<PageRef>>, i: nat, junk: Junk, ghost f: Frames)
      requires i < pages.Length && pages[i] == None && AllGiven(frames, nextPage)
      requires Gathered(fCache, f, frames, first, pages[..], i, junk)
      modifies `frames, `nextPage, `taken, pages
      ensures Gathered(fCache, f, frames, first, pages[..], i + 1, junk)
      ensures AllGiven(frames, nextPage) && taken == old(taken) + 1
    {
      ghost var g, s := frames, pages[..];
      var page := AllocatePage(first + i, junk(first + i));
      pages[i] := Some(page);
      AddSlot(fCache, f, g, first, s, i, junk, page);
      assert pages[..] == s[i := Some(page)];
    }

    lemma KeepSlot(c: Cache, f: Frames, g: Frames, first: nat, s: Slots, i: nat, junk: Junk)
      requires i < |s| && s[i].Some? && Gathered(c, f, g, first, s, i, junk)
      ensures Gathered(c, f, g, first, s, i + 1, junk)
    {
      assert forall p <- g :: FillsSlot(first, s, i, p) ==> FillsSlot(first, s, i + 1, p);
    }

    lemma AddSlot(c: Cache, f: Frames, g: Frames, first: nat, s: Slots, i: nat, junk: Junk, p: PageRef)
      requires i < |s| && s[i] == None && p !in g && p.number == first + i && Gathered(c, f, g, first, s, i, junk)
      ensures Gathered(c, f, g[p := VmPage(junk(first + i), None, true, false)], first, s[i := Some(p)], i + 1, junk)
    {
      var t := s[i := Some(p)];
      assert forall q <- g :: FillsSlot(first, s, i, q) ==> FillsSlot(first, t, i + 1, q);
      assert FillsSlot(first, t, i + 1, p);
    }

    lemma AllGathered(c: Cache, f: Frames, g: Frames, first: nat, s: Slots, i: nat, junk: Junk)
      requires i <= |s| && Gathered(c, f, g, first, s, i, junk)
      requires forall k :: first + i <= k < first + |s| ==> k in c
      ensures Gathered(c, f, g, first, s, |s|, junk)
    {
      assert forall p <- g :: FillsSlot(first, s, i, p) ==> FillsSlot(first, s, |s|, p);
    }

    /** vm_page_allocate_page: a busy page in no cache, holding whatever it happens to hold. */
    method AllocatePage(number: nat, data: Page) returns (page: PageRef)
      requires AllGiven(frames, nextPage)
      modifies `frames, `nextPage, `taken
      ensures page.number == number && page !in old(frames)
      ensures frames == old(frames)[page := VmPage(data, None, true, false)]
      ensures AllGiven(frames, nextPage) && taken == old(taken) + 1
    {
      page := PageRef(nextPage, number);
      assert !Given(page, nextPage);
      assert forall p <- frames :: Given(p, nextPage);
      frames := frames[page := VmPage(data, None, true, false)];
      nextPage := nextPage + 1;
      taken := taken + 1;
    }

    /** _GetPages. */
    method GetPages(first: nat, count: nat, isWrite: bool, junk: Junk, pages: array<Option<PageRef>>)
      requires Valid() && WholeJunk(junk) && pages.Length == count
      modifies `frames, `nextPage, `taken, pages
      ensures Gathered(fCache, Busied(old(frames), first, count), frames, first, pages[..], if isWrite then count else 0, junk)
      ensures AllGiven(frames, nextPage)
      ensures taken == old(taken) + if isWrite then Missing(fCache, first, count) else 0
    {
      ghost var f := Busied(frames, first, count);
      var missing := LookUpPages(first, count, pages);
      assert AllGiven(frames, nextPage) by {
        assert forall p <- old(frames) :: Given(p, nextPage);
      }
      if isWrite {
        if missing > 0 {
          AllocateMissing(first, pages, missing, junk);
        } else {
          NoneMissing(fCache, first, 0, count);
          AllGathered(fCache, f, frames, first, pages[..], 0, junk);
        }
      }
    }

    /** The transfer loop of _DoCacheIO. The caller's buffer can be accessed up to byte `reach`:
        a copy that goes beyond stops there with an error. */
    method Transfer(offset: nat, buffer: seq<uint8>, length: nat, isWrite: bool, reach: nat, pages: array<Option<PageRef>>)
      returns (ok: bool, done: nat, out: seq<uint8>)
      requires isWrite ==> length == |buffer|
      requires pages.Length == PageCount(offset, length)
      requires SlotsHold(frames, offset / B_PAGE_SIZE, pages[..])
      requires isWrite ==> forall i :: 0 <= i < pages.Length ==> pages[i].Some?
      modifies `frames
      ensures ok <==> length <= reach
      ensures ok ==> done == length
      ensures !ok ==> done <= reach < done + B_PAGE_SIZE && (done == 0 || (offset + done) % B_PAGE_SIZE == 0)
      ensures isWrite ==> Stored(old(frames), frames, pages[..], offset, buffer[..Min(length, reach)])
      ensures !isWrite ==> frames == old(frames) && |out| == Min(length, reach)
      ensures !isWrite ==> ShownBySlots(frames, pages[..], offset, out)
    {
      ghost var g, s := frames, pages[..];
      ghost var first := offset / B_PAGE_SIZE;
      var left: int, index: nat := length, 0;
      ok, done, out := true, 0, [];
      NothingStored(g, s, offset);
      while left > 0
        invariant 0 <= left && done + left == length && done <= reach
        invariant left > 0 ==> offset + done == (first + index) * B_PAGE_SIZE + if index == 0 then offset % B_PAGE_SIZE else 0
        invariant left > 0 ==> done == 0 || index > 0
        invariant isWrite ==> Stored(g, frames, s, offset, buffer[..done])
        invariant !isWrite ==> frames == g && |out| == done && ShownBySlots(g, s, offset, out)
        decreases left
      {
        var page := pages[index];
        var at := if index == 0 then offset % B_PAGE_SIZE else 0;
        var bytes := Min(left, B_PAGE_SIZE - at);
        var copied := Min(bytes, reach - done);
        if isWrite {
          ghost var h := frames;
          SlotStored(g, h, s, offset, buffer[..done], index);
          StoreBytes(page.value, at, buffer[done..done + copied]);
          StoredMore(g, h, frames, s, offset, buffer, done, copied, at, index);
        } else {
          ShownMore(g, s, offset, out, index, at, copied);
          out := out + if page.Some? then frames[page.value].data[at..at + copied] else Zeros(copied);
        }
        if copied < bytes {
          return false, done, out;
        }
        done := done + bytes;
        left := left - bytes;
        index := index + 1;
      }
    }

    /** vm_memcpy_to_physical, for the bytes it gets to copy. */
    method StoreBytes(page: PageRef, at: nat, data: seq<uint8>)
      requires page in frames && at + |data| <= |frames[page].data|
      modifies `frames
      ensures frames == WithBytes(old(frames), page, at, data)
    {
      frames := WithBytes(frames, page, at, data);
    }

    /** _PutPages: every page the transfer had is unbusy again. New pages go into the cache, or
        after an error back to the page allocator. */
    method PutPages(first: nat, count: nat, pages: array<Option<PageRef>>, success: bool)
      requires pages.Length == count && SlotsMatch(fCache, frames, first, pages[..])
      modifies `fCache, `frames, `freed
      ensures fCache == CacheAfter(old(fCache), first, pages[..], count, success)
      ensures frames == FramesAfter(old(frames), first, pages[..], count, success)
      ensures var n := NewSlots(old(frames), pages[..], count);
              && |fCache| == |old(fCache)| + (if success then n else 0)
              && freed == old(freed) + if success then 0 else n
    {
      ghost var c, h, s := fCache, frames, pages[..];
      var length, index := count * B_PAGE_SIZE, 0;
      assert fCache == CacheAfter(c, first, s, 0, success);
      assert frames == FramesAfter(h, first, s, 0, success);
      while length > 0
        invariant 0 <= index <= count && length == (count - index) * B_PAGE_SIZE
        invariant fCache == CacheAfter(c, first, s, index, success)
        invariant frames == FramesAfter(h, first, s, index, success)
        invariant |fCache| == |c| + (if success then NewSlots(h, s, index) else 0)
        invariant freed == old(freed) + if success then 0 else NewSlots(h, s, index)
      {
        PutStep(c, h, first, s, index, success);
        PutSlot(first + index, pages[index], success);
        index := index + 1;
        length := length - B_PAGE_SIZE;
      }
      assert index == count && pages[..] == s;
    }

    /** One turn of the loop, for the slot of page number k. */
    method PutSlot(k: nat, page: Option<PageRef>, success: bool)
      requires page.Some? ==> page.value in frames
      requires IsNew(frames, page) ==> k !in fCache
      modifies `fCache, `frames, `freed
      ensures fCache == SlotCache(old(fCache), old(frames), k, page, success)
      ensures frames == SlotFrames(old(frames), k, page, success)
      ensures var n := if IsNew(old(frames), page) then 1 else 0;
              && |fCache| == |old(fCache)| + (if success then n else 0)
              && freed == old(freed) + if success then 0 else n
    {
      if page.Some? {
        if frames[page.value].at.None? {
          if success {
            InsertPage(page.value, k);
          } else {
            FreePage(page.value);
          }
        } else {
          MarkUnbusy(page.value);
        }
      }
    }

    method InsertPage(page: PageRef, k: nat)
      requires page in frames
      modifies `fCache, `frames
      ensures fCache == old(fCache)[k := page]
      ensures frames == old(frames)[page := old(frames)[page].(at := Some(k), busy := false)]
    {
      fCache := fCache[k := page];
      frames := frames[page := frames[page].(at := Some(k), busy := false)];
    }

    method MarkUnbusy(page: PageRef)
      requires page in frames
      modifies `frames
      ensures frames == old(frames)[page := old(frames)[page].(busy := false)]
    {
      frames := frames[page := frames[page].(busy := false)];
    }

    method FreePage(page: PageRef)
      modifies `frames, `freed
      ensures frames == old(frames) - {page} && freed == old(freed) + 1
    {
      frames := frames - {page};
      freed := freed + 1;
    }

    ghost function Pages(): Pages
      requires CacheOk(fCache, frames)
      reads `fCache, `frames
    {
      Resident(fCache, frames)
    }

    /** The first fDataSize bytes. */
    ghost function Bytes(): seq<uint8>
      requires Valid()
      reads this
    {
      Contents(Pages(), fDataSize)
    }

    /** _DoCacheIO. A write that succeeds leaves the data, and the pages it had to allocate; one
        that fails leaves the data only in pages that were there. */
    method DoCacheIO(offset: nat, buffer: seq<uint8>, length: nat, isWrite: bool, reach: nat, junk: Junk)
      returns (ok: bool, bytesProcessed: nat, out: seq<uint8>)
      requires Valid() && WholeJunk(junk) && (isWrite ==> length == |buffer|)
      modifies `fCache, `frames, `nextPage, `taken, `freed
      ensures Valid()
      ensures ok <==> length <= reach
      ensures ok ==> bytesProcessed == length
      ensures !ok ==> bytesProcessed <= reach < bytesProcessed + B_PAGE_SIZE
                      && (bytesProcessed == 0 || (offset + bytesProcessed) % B_PAGE_SIZE == 0)
      ensures isWrite ==> Pages() == Written(old(Pages()),
                            if ok then NewPages(old(fCache), offset / B_PAGE_SIZE, PageCount(offset, length), junk) else map[],
                            offset, buffer[..Min(length, reach)])
      ensures !isWrite ==> Pages() == old(Pages()) && |out| == Min(length, reach)
                           && forall i :: 0 <= i < |out| ==> out[i] == At(old(Pages()), offset + i)
      ensures taken == old(taken) + if isWrite then Missing(old(fCache), offset / B_PAGE_SIZE, PageCount(offset, length)) else 0
    {
      ghost var c, f := fCache, frames;
      var pages := new Option<PageRef>[PageCount(offset, length)];
      ghost var data := if isWrite then buffer[..Min(length, reach)] else [];
      ghost var g;
      ok, bytesProcessed, out, g := GetAndTransfer(offset, buffer, length, isWrite, reach, junk, pages, data);
      SettlePages(offset, length, isWrite, junk, pages, ok, c, f, g, data);
      NothingWritten(Resident(c, f), offset);
    }

    /** _DoCacheIO after its loop. */
    method SettlePages(offset: nat, length: nat, isWrite: bool, junk: Junk, pages: array<Option<PageRef>>, ok: bool,
                       ghost c: Cache, ghost f: Frames, ghost g: Frames, ghost data: seq<uint8>)
      requires InTransfer(c, f, g, frames, pages[..], offset, length, isWrite, junk, data) && fCache == c
      requires SlotsMatch(c, frames, offset / B_PAGE_SIZE, pages[..]) && AllGiven(frames, nextPage)
      requires taken == freed + |fCache| + NewSlots(frames, pages[..], pages.Length)
      modifies `fCache, `frames, `freed
      ensures Valid()
      ensures Pages() == Written(Resident(c, f),
                           if isWrite && ok then NewPages(c, offset / B_PAGE_SIZE, PageCount(offset, length), junk) else map[],
                           offset, data)
    {
      ghost var h := frames;
      PutPages(offset / B_PAGE_SIZE, PageCount(offset, length), pages, ok);
      AfterTransfer(c, f, g, h, pages[..], offset, length, isWrite, junk, data, ok);
      StillGiven(h, frames, nextPage);
    }

    /** _DoCacheIO up to the end of its loop; g are the frames between the two steps. */
    method GetAndTransfer(offset: nat, buffer: seq<uint8>, length: nat, isWrite: bool, reach: nat, junk: Junk,
                          pages: array<Option<PageRef>>, ghost data: seq<uint8>)
      returns (ok: bool, done: nat, out: seq<uint8>, ghost g: Frames)
      requires Valid() && WholeJunk(junk) && (isWrite ==> length == |buffer|)
      requires pages.Length == PageCount(offset, length)
      requires data == if isWrite then buffer[..Min(length, reach)] else []
      modifies `frames, `nextPage, `taken, pages
      ensures InTransfer(fCache, old(frames), g, frames, pages[..], offset, length, isWrite, junk, data)
      ensures SlotsMatch(fCache, frames, offset / B_PAGE_SIZE, pages[..]) && AllGiven(frames, nextPage)
      ensures ok <==> length <= reach
      ensures ok ==> done == length
      ensures !ok ==> done <= reach < done + B_PAGE_SIZE && (done == 0 || (offset + done) % B_PAGE_SIZE == 0)
      ensures !isWrite ==> |out| == Min(length, reach)
                           && forall i :: 0 <= i < |out| ==> out[i] == At(old(Pages()), offset + i)
      ensures var n := if isWrite then Missing(fCache, offset / B_PAGE_SIZE, PageCount(offset, length)) else 0;
              NewSlots(frames, pages[..], pages.Length) == n && taken == old(taken) + n
    {
      ghost var f := frames;
      var first, count := offset / B_PAGE_SIZE, PageCount(offset, length);
      GetPages(first, count, isWrite, junk, pages);
      ghost var s := pages[..];
      g := frames;
      GatheredSlots(fCache, f, g, first, s, if isWrite then count else 0, junk);
      ok, done, out := Transfer(offset, buffer, length, isWrite, reach, pages);
      assert pages[..] == s;
      NothingStored(g, s, offset);
      StoredMatches(fCache, g, frames, first, s, offset, data);
      StillGiven(g, frames, nextPage);
      if !isWrite {
        ShownIsRead(fCache, f, g, s, offset, length, junk, out);
      }
    }

    method Read(pos: int, length: nat, reach: nat, junk: Junk) returns (st: Status, outLength: nat, out: seq<uint8>)
      requires Valid() && WholeJunk(junk)
      modifies `fCache, `frames, `nextPage, `taken, `freed
      ensures Valid() && Pages() == old(Pages())
      ensures st == BadValue <==> pos < 0
      ensures st == OK ==> out == Slice(old(Bytes()), pos, length) && outLength == |out|
      ensures st == BadAddress <==> 0 <= pos && reach < |Slice(old(Bytes()), pos, length)|
      ensures st == BadAddress ==> out == Slice(old(Bytes()), pos, length)[..reach] && outLength <= reach < outLength + B_PAGE_SIZE
      ensures fDataSize == old(fDataSize)
      ensures st == OK ==> |out| == if pos >= fDataSize then 0 else if length <= fDataSize - pos then length else fDataSize - pos
      ensures st == BadAddress ==> |out| == reach
      ensures st != BadValue ==> forall i :: 0 <= i < |out| ==> pos + i < fDataSize && out[i] == old(Bytes())[pos + i]
      ensures st in {OK, BadValue, BadAddress}
    {
      if pos < 0 {
        return BadValue, 0, [];
      }
      var from := Min(pos, fDataSize);
      var count := Min(length, fDataSize - from);
      ghost var bytes := Bytes();
      var ok;
      ok, outLength, out := DoCacheIO(from, [], count, false, reach, junk);
      Delivered(bytes, pos, length, reach, out);
      st := if ok then OK else BadAddress;
    }

    /** The bytes of a file that a read gives out, if the caller's buffer reaches that far. */
    lemma Delivered(bytes: seq<uint8>, pos: nat, length: nat, reach: nat, out: seq<uint8>)
      requires |out| == Min(Min(length, |bytes| - Min(pos, |bytes|)), reach)
      requires forall i :: 0 <= i < |out| ==> out[i] == bytes[Min(pos, |bytes|) + i]
      ensures |Slice(bytes, pos, length)| == Min(length, |bytes| - Min(pos, |bytes|))
      ensures out == Slice(bytes, pos, length)[..|out|]
      ensures forall i :: 0 <= i < |out| ==> pos + i < |bytes| && out[i] == bytes[pos + i]
    {
    }

    /** The pages that a write of `length` bytes at `pos` allocates. */
    ghost function Allocated(pos: nat, length: nat, junk: Junk): (blank: Pages)
      requires CacheOk(fCache, frames) && WholeJunk(junk)
      reads `fCache, `frames
      ensures FreshFor(blank, Pages(), pos, length)
    {
      NewPages(fCache, pos / B_PAGE_SIZE, PageCount(pos, length), junk)
    }

    /** The end of Write: the pages and their bytes, once the file has its new size. */
    method WriteAt(at: nat, buffer: seq<uint8>, reach: nat, junk: Junk) returns (ok: bool, outLength: nat)
      requires Valid() && WholeJunk(junk)
      modifies `fCache, `frames, `nextPage, `taken, `freed
      ensures Valid()
      ensures ok <==> |buffer| <= reach
      ensures if ok then outLength == |buffer| else outLength <= reach < outLength + B_PAGE_SIZE
      ensures Pages() == Written(old(Pages()), if ok then old(Allocated(at, |buffer|, junk)) else map[],
                                 at, buffer[..Min(|buffer|, reach)])
      ensures forall k: nat :: k in Pages() <==>
                k in old(Pages()) || (ok && k * 4096 < at + |buffer| && at < (k + 1) * 4096)
      ensures var data := buffer[..Min(|buffer|, reach)];
              forall k <- Pages() :: Pages()[k] == Overlay(if k in old(Pages()) then old(Pages())[k] else junk(k), k, at, data)
      ensures forall k <- old(Pages()) :: (k + 1) * 4096 <= at || at + |buffer| <= k * 4096 ==> Pages()[k] == old(Pages())[k]
    {
      ghost var c, r := fCache, Pages();
      var out;
      ok, outLength, out := DoCacheIO(at, buffer, |buffer|, true, reach, junk);
      WriteOutcome(c, r, at, |buffer|, buffer[..Min(|buffer|, reach)], ok, junk, Pages());
    }

    /** `resizeOk` is whether VMCache::Resize succeeds, which is asked only when the file grows.
        Growing leaves the resident pages alone. */
    method Write(pos: int, isAppend: bool, buffer: seq<uint8>, resizeOk: bool, reach: nat, junk: Junk)
      returns (st: Status, outLength: nat)
      requires Valid() && WholeJunk(junk)
      modifies this
      ensures Valid()
      ensures var at := if isAppend then old(fDataSize) else pos;
              var grows := at + |buffer| > old(fDataSize);
              && (st == BadValue <==> at < 0)
              && (st == NoMemory <==> at >= 0 && grows && !resizeOk)
              && (st in {BadValue, NoMemory} ==> Pages() == old(Pages()) && fDataSize == old(fDataSize))
              && (st !in {BadValue, NoMemory} ==>
                    && fDataSize == Max(old(fDataSize), at + |buffer|)
                    && (st == OK <==> |buffer| <= reach)
                    && (if st == OK then outLength == |buffer| else outLength <= reach < outLength + B_PAGE_SIZE)
                    && Pages() == Written(old(Pages()), if st == OK then old(Allocated(at, |buffer|, junk)) else map[],
                                          at, buffer[..Min(|buffer|, reach)]))
      ensures var at := if isAppend then old(fDataSize) else pos;
              var data := buffer[..Min(|buffer|, reach)];
              st in {OK, BadAddress} ==>
                && fDataSize == (if old(fDataSize) < at + |buffer| then at + |buffer| else old(fDataSize))
                && (forall k: nat :: k in Pages() <==>
                      k in old(Pages()) || (st == OK && k * 4096 < at + |buffer| && at < (k + 1) * 4096))
                && (forall k <- Pages() ::
                      Pages()[k] == Overlay(if k in old(Pages()) then old(Pages())[k] else junk(k), k, at, data))
                && (forall k <- old(Pages()) ::
                      (k + 1) * 4096 <= at || at + |buffer| <= k * 4096 ==> Pages()[k] == old(Pages())[k])
    {
      outLength := |buffer|;
      var at := if isAppend then fDataSize else pos;
      if at < 0 {
        return BadValue, outLength;
      }
      var newSize := at + outLength;
      if newSize <= 0 {
        NothingWritten(Pages(), at);
        WriteOutcome(fCache, Pages(), at, 0, [], true, junk, Pages());
        return OK, outLength;
      }
      if newSize > fDataSize {
        if !resizeOk {
          return NoMemory, outLength;
        }
        fDataSize := newSize;
      }
      var ok;
      ok, outLength := WriteAt(at, buffer, reach, junk);
      st := if ok then OK else BadAddress;
    }
  }
}
