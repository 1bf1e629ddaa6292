/** The volume: its id pool and id map, the vnode objects, and the calls the VFS makes. */
module ShmfsVolume {
  import opened Basics
  import opened BlockMap
  import ExternalAllocator
  import opened Namespace

  datatype Status = OK | NoEntry | EntryNotFound | FileExists | IsADirectory | NotADirectory
                  | DirectoryNotEmpty | NoMemory

  const FIRST_ID: int := 1
  const ID_COUNT: int := 0x7fffffff

  /** v is found in the id map under its id, unless it never got one. */
  ghost predicate Registered(s: Vnodes, ids: map<int, Ref>, v: Ref)
    requires v in s
  {
    s[v].id != 0 ==> s[v].id in ids && ids[s[v].id] == v
  }

  ghost predicate IdsAgree(s: Vnodes, ids: map<int, Ref>) {
    && (forall v {:trigger Registered(s, ids, v)} :: v in s ==> Registered(s, ids, v))
    && (forall i {:trigger ids[i]} :: i in ids ==> i != 0 && ids[i] in s && s[ids[i]].id == i)
  }

  /** The allocation that stands for an id. */
  ghost function IdExtent(i: int): Extent { Extent(i, 1, true) }

  /** The ids in the map are the addresses allocated in the pool. */
  ghost predicate PoolAgrees(m: Blocks, ids: map<int, Ref>) {
    Live(m) == set i | i in ids :: IdExtent(i)
  }

  /** An address below n has been given out. */
  predicate Given(v: Ref, n: int) { v.adr < n }

  /** An id is in use exactly when its address in the pool is not free. */
  lemma FreeIds(m: Blocks, ids: map<int, Ref>)
    requires Canonical(m, FIRST_ID, FIRST_ID + ID_COUNT) && PoolAgrees(m, ids)
    ensures forall i :: FreeRange(m, i, 1) <==> FIRST_ID <= i < FIRST_ID + ID_COUNT && i !in ids
  {
    forall i ensures FreeRange(m, i, 1) <==> FIRST_ID <= i < FIRST_ID + ID_COUNT && i !in ids {
      FreeIffNotLive(m, FIRST_ID, FIRST_ID + ID_COUNT, i);
      assert FreeRange(m, i, 1) <==> FreeAddress(m, i);
      assert i in ids ==> IdExtent(i) in Live(m) && IdExtent(i).Covers(i);
    }
  }

  /** Only vnodes in existence have ids, and no two share one. */
  lemma IdsLive(s: Vnodes, ids: map<int, Ref>)
    requires IdsAgree(s, ids)
    ensures forall i :: i in ids ==> ids[i] in s
    ensures s == map[] ==> ids == map[]
    ensures forall v, w :: v in s && w in s && s[v].id == s[w].id != 0 ==> v == w
  {
    if ids.Keys != {} {
      var i := AnyOf(ids.Keys);
      assert ids[i] in s;
    }
    forall v, w | v in s && w in s && s[v].id == s[w].id != 0 ensures v == w {
      assert Registered(s, ids, v) && Registered(s, ids, w);
    }
  }

  ghost predicate IdLeft(ids: map<int, Ref>) {
    exists i :: FIRST_ID <= i < FIRST_ID + ID_COUNT && i !in ids
  }

  /** The n numbers from lo on. */
  ghost function Range(lo: int, n: nat): (r: set<int>)
    ensures forall i :: i in r <==> lo <= i < lo + n
    ensures |r| == n
  {
    if n == 0 then {} else Range(lo, n - 1) + {lo + n - 1}
  }

  /** All ids are in use exactly when 0x7fffffff of them are: they are numbers in 1..0x7fffffff,
      and there are as many numbers as that. */
  lemma IdsCounted(m: Blocks, ids: map<int, Ref>)
    requires Canonical(m, FIRST_ID, FIRST_ID + ID_COUNT) && PoolAgrees(m, ids)
    ensures forall i <- ids :: 1 <= i <= 0x7fff_ffff
    ensures |ids| <= 0x7fff_ffff && (IdLeft(ids) <==> |ids| < 0x7fff_ffff)
  {
    forall i | i in ids ensures FIRST_ID <= i < FIRST_ID + ID_COUNT {
      assert IdExtent(i) in Live(m);
      LiveIff(m, FIRST_ID, FIRST_ID + ID_COUNT, IdExtent(i));
    }
    assert |ids| == |ids.Keys|;
    OneMissing(ids.Keys, FIRST_ID, ID_COUNT);
  }

  /** Of n numbers one is missing exactly when there are fewer than n. */
  lemma OneMissing(ids: set<int>, lo: int, n: nat)
    requires forall i <- ids :: lo <= i < lo + n
    ensures |ids| <= n && ((exists i :: lo <= i < lo + n && i !in ids) <==> |ids| < n)
  {
    if i :| lo <= i < lo + n && i !in ids {
      SubsetSize(ids, Range(lo, n) - {i});
    } else {
      assert ids == Range(lo, n);
    }
  }

  class Volume {
    const fIdPool: ExternalAllocator.Allocator
    var fIds: map<int, Ref>
    var fRootVnode: Option<Ref>
    // The vnode objects in existence, and the next address to give out.
    var vnodes: Vnodes
    var nextAdr: int
    ghost var own: Owners

    ghost predicate Consistent()
      reads this, fIdPool
    {
      && fIdPool.Valid()
      && fIdPool.lo == FIRST_ID && fIdPool.hi == FIRST_ID + ID_COUNT
      && PoolAgrees(fIdPool.fAdrMap, fIds)
      && IdsAgree(vnodes, fIds)
      && Inv(vnodes, own)
      && own.root == fRootVnode
      && forall v {:trigger Given(v, nextAdr)} :: v in vnodes ==> Given(v, nextAdr)
    }

    /** What holds between calls: also, every vnode has an id and no destructor is running. */
    ghost predicate Valid()
      reads this, fIdPool
    {
      && Consistent()
      && own.dying == {}
      && forall v <- vnodes :: vnodes[v].id != 0
    }

    constructor ()
      ensures Valid() && vnodes == map[] && own == Owners(map[], multiset{}, None, {})
      ensures fresh(fIdPool) && fIds == map[] && fIdPool.fAdrMap == map[1 := Extent(1, 0x7fff_ffff, false)]
    {
      fIdPool := new ExternalAllocator.Allocator();
      fIds, fRootVnode, vnodes, nextAdr := map[], None, map[], 0;
      own := Owners(map[], multiset{}, None, {});
      new;
      fIdPool.Register(FIRST_ID, ID_COUNT);
      EmptyPool(fIdPool.fAdrMap, FIRST_ID, FIRST_ID + ID_COUNT);
    }

    /** The vnodes whose destructors are not running: what bounds the depth of destruction. */
    ghost function Standing(): nat
      reads this
    {
      |vnodes.Keys - own.dying|
    }

    // ---------- reference counts and destruction ----------

    /** BReferenceable::ReleaseReference, for a reference that was taken and is owed. */
    method ReleaseReference(v: Ref)
      requires Consistent() && Held(own, v)
      modifies this, fIdPool
      ensures Consistent() && own.held == old(own.held) - multiset{v}
      ensures own.root == old(own.root) && own.dying == old(own.dying)
      ensures Shrunk(old(vnodes), vnodes)
      ensures old(vnodes)[v].refs == 1 ==> v !in vnodes
      ensures old(vnodes)[v].refs > 1 || old(vnodes)[v].nodes == map[] ==>
                vnodes == DropRefs(old(vnodes), v, 1) && own.holder == old(own.holder)
      decreases Standing(), 0, 0
    {
      ghost var was := vnodes;
      DropCount(v);
      if vnodes[v].refs == 0 {
        Destroy(v);
        AfterLast(was, vnodes, v);
      }
    }

    lemma AfterLast(s: Vnodes, t: Vnodes, v: Ref)
      requires v in s && Shrunk(WithRefs(s, v, 0), t) && v !in t
      ensures Shrunk(s, t)
      ensures t == WithRefs(s, v, 0) - {v} ==> t == s - {v}
    {
    }

    /** The count goes down; at zero the destructor has to run. */
    method DropCount(v: Ref)
      requires Consistent() && Held(own, v)
      modifies `vnodes, `own
      ensures Consistent() && v in old(vnodes)
      ensures vnodes == WithRefs(old(vnodes), v, old(vnodes)[v].refs - 1)
      ensures own == old(own).(held := old(own).held - multiset{v},
                               dying := if vnodes[v].refs == 0 then old(own).dying + {v} else old(own).dying)
      ensures vnodes[v].refs >= 0 && v !in old(own).dying
      ensures Standing() == if vnodes[v].refs == 0 then old(Standing()) - 1 else old(Standing())
    {
      GiveBackKeeps(vnodes, own, v);
      ghost var last := vnodes[v].refs == 1;
      own := own.(held := own.held - multiset{v}, dying := if last then own.dying + {v} else own.dying);
      vnodes := WithRefs(vnodes, v, vnodes[v].refs - 1);
      SameIds(old(vnodes), vnodes, fIds);
      assert last ==> vnodes.Keys - own.dying == (old(vnodes).Keys - old(own).dying) - {v};
    }

    lemma SameIds(s: Vnodes, t: Vnodes, ids: map<int, Ref>)
      requires IdsAgree(s, ids) && s.Keys == t.Keys && forall v <- s :: t[v].id == s[v].id
      ensures IdsAgree(t, ids)
    {
      assert forall v <- t :: v in s;
      forall v | v in t ensures Registered(t, ids, v) {
        assert Registered(s, ids, v);
      }
    }

    /** The destructors: a directory lets go of its entries, then the vnode of its id. */
    method Destroy(v: Ref)
      requires Consistent() && v in own.dying
      modifies this, fIdPool
      ensures Consistent() && own.held == old(own.held)
      ensures own.root == old(own.root) && own.dying == old(own.dying) - {v}
      ensures v !in vnodes && Shrunk(old(vnodes), vnodes)
      ensures old(vnodes)[v].nodes == map[] ==> vnodes == old(vnodes) - {v} && own.holder == old(own.holder)
      decreases Standing(), 2
    {
      ReleaseEntries(v);
      ReturnId(v);
    }

    /** ~ShmfsDirectoryVnode. */
    method ReleaseEntries(v: Ref)
      requires Consistent() && v in own.dying
      modifies this, fIdPool
      ensures Consistent() && own.held == old(own.held)
      ensures own.root == old(own.root) && own.dying == old(own.dying)
      ensures Shrunk(old(vnodes) - {v}, vnodes - {v})
      ensures v in vnodes && vnodes[v] == old(vnodes)[v].(nodes := map[])
      ensures old(vnodes)[v].nodes == map[] ==> vnodes == old(vnodes) && own.holder == old(own.holder)
      decreases Standing(), 1
    {
      while vnodes[v].nodes != map[]
        invariant Consistent() && own.held == old(own.held)
        invariant own.root == old(own.root) && own.dying == old(own.dying)
        invariant Shrunk(old(vnodes) - {v}, vnodes - {v})
        invariant v in vnodes && vnodes[v] == old(vnodes)[v].(nodes := vnodes[v].nodes)
        invariant old(vnodes)[v].nodes == map[] ==> vnodes == old(vnodes) && own.holder == old(own.holder)
        invariant vnodes.Keys <= old(vnodes).Keys
        decreases vnodes[v].nodes.Keys
      {
        SubsetSize(vnodes.Keys - own.dying, old(vnodes).Keys - old(own).dying);
        ReleaseEntry(v);
      }
    }

    method ReleaseEntry(v: Ref)
      requires Consistent() && v in own.dying && vnodes[v].nodes != map[]
      modifies this, fIdPool
      ensures Consistent() && own.held == old(own.held)
      ensures own.root == old(own.root) && own.dying == old(own.dying)
      ensures Shrunk(old(vnodes) - {v}, vnodes - {v})
      ensures v in vnodes && vnodes[v] == old(vnodes)[v].(nodes := vnodes[v].nodes)
      ensures vnodes[v].nodes.Keys < old(vnodes)[v].nodes.Keys
      ensures vnodes.Keys <= old(vnodes).Keys
      decreases Standing(), 0, 1
    {
      var name :| name in vnodes[v].nodes;
      var child := vnodes[v].nodes[name];
      DetachNode(v, name);
      ReleaseReference(child);
      assert Counted(old(vnodes), old(own), v) && Counted(vnodes, own, v);
    }

    /** fNodes.Remove: the reference that the link stood for is now owed by the caller. */
    method DetachNode(d: Ref, name: string)
      requires Consistent() && d in vnodes && name in vnodes[d].nodes
      modifies `vnodes, `own
      ensures Consistent()
      ensures var c := old(vnodes)[d].nodes[name];
              && vnodes == WithNodes(old(vnodes), d, old(vnodes)[d].nodes - {name})
              && own == old(own).(holder := old(own).holder - {c}, held := old(own).held + multiset{c})
              && Held(own, c) && c in vnodes
    {
      DetachKeeps(vnodes, own, d, name);
      assert EntriesLinked(vnodes, own, d);
      ghost var c := vnodes[d].nodes[name];
      vnodes := WithNodes(vnodes, d, vnodes[d].nodes - {name});
      own := own.(holder := own.holder - {c}, held := own.held + multiset{c});
      SameIds(old(vnodes), vnodes, fIds);
    }

    /** ~ShmfsVnode: the id goes back to the pool and the object is gone. */
    method ReturnId(v: Ref)
      requires Consistent() && v in own.dying && vnodes[v].nodes == map[]
      modifies this, fIdPool
      ensures Consistent() && own == old(own).(dying := old(own).dying - {v})
      ensures vnodes == old(vnodes) - {v}
    {
      var id := vnodes[v].id;
      DeleteKeeps(vnodes, own, v);
      assert Registered(vnodes, fIds, v);
      if id != 0 {
        LiveIff(fIdPool.fAdrMap, fIdPool.lo, fIdPool.hi, IdExtent(id));
        LiveAt(fIdPool.fAdrMap, fIdPool.lo, fIdPool.hi, id);
        assert IdExtent(id) in Live(fIdPool.fAdrMap);
        fIds := fIds - {id};
        var ok := fIdPool.Free(id);
      }
      vnodes := vnodes - {v};
      own := own.(dying := own.dying - {v});
      IdsWithout(old(vnodes), old(fIds), v);
    }

    lemma IdsWithout(s: Vnodes, ids: map<int, Ref>, v: Ref)
      requires IdsAgree(s, ids) && v in s
      ensures IdsAgree(s - {v}, ids - {s[v].id})
      ensures s[v].id == 0 ==> ids - {s[v].id} == ids
    {
      assert Registered(s, ids, v);
      forall w | w in s - {v} ensures Registered(s - {v}, ids - {s[v].id}, w) {
        assert Registered(s, ids, w);
      }
    }

    // ---------- new vnodes ----------

    /** operator new and SetName; the one reference belongs to the caller. */
    method NewVnode(kind: Kind, name: string) returns (v: Ref)
      requires Consistent()
      modifies `vnodes, `nextAdr, `own
      ensures Consistent() && v !in old(vnodes)
      ensures vnodes == old(vnodes)[v := Vnode(kind, 0, name, 1, map[])]
      ensures own == old(own).(held := old(own).held + multiset{v})
      ensures Loose(own, v) && v !in own.holder.Values
    {
      v := Ref(nextAdr);
      assert v !in vnodes by {
        assert Given(v, nextAdr) == false;
      }
      var vnode := Vnode(kind, 0, name, 1, map[]);
      NewKeeps(vnodes, own, v, vnode);
      AlsoGiven(vnodes, nextAdr);
      NewIds(vnodes, fIds, v, vnode);
      vnodes := vnodes[v := vnode];
      nextAdr := nextAdr + 1;
      own := own.(held := own.held + multiset{v});
    }

    lemma AlsoGiven(s: Vnodes, n: int)
      requires forall v {:trigger Given(v, n)} :: v in s ==> Given(v, n)
      ensures forall v {:trigger Given(v, n + 1)} :: v in s ==> Given(v, n + 1)
    {
      forall v | v in s ensures Given(v, n + 1) {
        assert Given(v, n);
      }
    }

    lemma NewIds(s: Vnodes, ids: map<int, Ref>, v: Ref, vnode: Vnode)
      requires IdsAgree(s, ids) && v !in s && vnode.id == 0
      ensures IdsAgree(s[v := vnode], ids)
    {
      var t := s[v := vnode];
      forall w | w in t ensures Registered(t, ids, w) {
        if w != v { assert Registered(s, ids, w); }
      }
    }

    /** An id that is not in use; there is none exactly when all 0x7fffffff are. */
    method TakeId(ghost v: Ref) returns (ok: bool, id: int)
      requires Consistent()
      modifies fIdPool
      ensures fIdPool.Valid() && fIdPool.lo == FIRST_ID && fIdPool.hi == FIRST_ID + ID_COUNT
      ensures |fIds| <= 0x7fff_ffff && (!ok <==> |fIds| == 0x7fff_ffff)
      ensures !ok ==> PoolAgrees(fIdPool.fAdrMap, fIds)
      ensures ok ==> 1 <= id <= 0x7fff_ffff && id !in fIds
      ensures ok ==> PoolAgrees(fIdPool.fAdrMap, fIds[id := v])
    {
      FreeIds(fIdPool.fAdrMap, fIds);
      IdsCounted(fIdPool.fAdrMap, fIds);
      ok, id := fIdPool.Alloc(1);
      if ok {
        assert IdExtent(id) !in old(Live(fIdPool.fAdrMap));
        assert id !in fIds;
        assert old(FreeRange(fIdPool.fAdrMap, id, 1));
      }
    }

    /** Gives v an id that no vnode in existence has; fails only if there is none left. */
    method RegisterVnode(v: Ref) returns (ok: bool)
      requires Consistent() && v in vnodes && vnodes[v].id == 0
      modifies `vnodes, `fIds, fIdPool
      ensures Consistent()
      ensures |old(fIds)| <= 0x7fff_ffff && (!ok <==> |old(fIds)| == 0x7fff_ffff)
      ensures ok ==> v in vnodes && vnodes == old(vnodes)[v := old(vnodes)[v].(id := vnodes[v].id)]
      ensures ok ==> 1 <= vnodes[v].id <= 0x7fff_ffff && vnodes[v].id !in old(fIds)
      ensures ok ==> fIds == old(fIds)[vnodes[v].id := v]
      ensures !ok ==> vnodes == old(vnodes) && fIds == old(fIds)
    {
      var id;
      ok, id := TakeId(v);
      if !ok {
        return;
      }
      RelabelKeeps(vnodes, own, v, vnodes[v].(id := id));
      RegisteredIds(vnodes, fIds, v, id);
      vnodes := vnodes[v := vnodes[v].(id := id)];
      fIds := fIds[id := v];
    }

    lemma RegisteredIds(s: Vnodes, ids: map<int, Ref>, v: Ref, id: int)
      requires IdsAgree(s, ids) && v in s && s[v].id == 0 && id != 0 && id !in ids
      ensures IdsAgree(s[v := s[v].(id := id)], ids[id := v])
    {
      var t := s[v := s[v].(id := id)];
      forall w | w in t ensures Registered(t, ids[id := v], w) {
        assert Registered(s, ids, w);
      }
    }

    /** fNodes.Insert and Detach: the creator's reference becomes the link. */
    method InsertNode(d: Ref, v: Ref)
      requires Consistent() && CanAttach(vnodes, own, d, v)
      modifies `vnodes, `own
      ensures Consistent()
      ensures vnodes == Attached(old(vnodes), d, v) && own == AttachedOwners(old(own), d, v)
    {
      AttachKeeps(vnodes, own, d, v);
      vnodes := Attached(vnodes, d, v);
      own := AttachedOwners(own, d, v);
      SameIds(old(vnodes), vnodes, fIds);
    }

    // ---------- calls from the VFS ----------

    method GetVnode(id: int) returns (st: Status, v: Ref)
      requires Valid()
      modifies `vnodes, `own
      ensures Valid()
      ensures st == OK <==> id in fIds
      ensures st == OK ==> v == fIds[id] && v in old(vnodes)
                           && vnodes == old(vnodes)[v := old(vnodes)[v].(refs := old(vnodes)[v].refs + 1)]
                           && own == old(own).(held := old(own).held + multiset{v})
      ensures st != OK ==> st == NoEntry && vnodes == old(vnodes) && own == old(own)
    {
      if id !in fIds {
        return NoEntry, Ref(0);
      }
      v := fIds[id];
      AcquireKeeps(vnodes, own, v);
      vnodes := WithRefs(vnodes, v, vnodes[v].refs + 1);
      own := own.(held := own.held + multiset{v});
      SameIds(old(vnodes), vnodes, fIds);
      st := OK;
    }

    /** PutVnode and RemoveVnode: the VFS gives back a reference. What survives is exactly what
        the root or a reference still held leads down to. */
    method PutVnode(v: Ref)
      requires Valid() && Held(own, v)
      modifies this, fIdPool
      ensures Valid() && own.held == old(own.held) - multiset{v} && own.root == old(own.root)
      ensures forall w <- vnodes :: w in old(vnodes) && vnodes[w] == old(vnodes)[w].(refs := vnodes[w].refs)
      ensures forall w <- old(vnodes) :: w in vnodes <==> Anchored(own, old(own.holder), w)
    {
      ghost var s, o := vnodes, own;
      ReleaseReference(v);
      forall w | w in s ensures w in vnodes <==> Anchored(own, o.holder, w) {
        SurvivorsAreAnchored(s, o, vnodes, own, w);
      }
    }

    /** A new vnode with an id; the one reference belongs to the caller. Without an id the
        vnode does not stay. */
    method MakeVnode(kind: Kind, name: string) returns (ok: bool, v: Ref)
      requires Valid()
      modifies this, fIdPool
      ensures Valid()
      ensures !ok <==> |old(fIds)| == 0x7fff_ffff
      ensures !ok ==> vnodes == old(vnodes) && own == old(own)
      ensures ok ==> v !in old(vnodes) && v in vnodes && 1 <= vnodes[v].id <= 0x7fff_ffff && vnodes[v].id !in old(fIds)
      ensures ok ==> vnodes == old(vnodes)[v := Vnode(kind, vnodes[v].id, name, 1, map[])]
      ensures ok ==> own == old(own).(held := old(own).held + multiset{v})
      ensures ok ==> Loose(own, v) && v !in own.holder.Values
    {
      v := NewVnode(kind, name);
      ok := RegisterVnode(v);
      if !ok {
        Discard(v, old(vnodes), old(own));
      }
    }

    /** A new vnode that is not kept: its one reference goes, and so does it. */
    method Discard(v: Ref, ghost s: Vnodes, ghost o: Owners)
      requires Consistent() && v !in s && v in vnodes && vnodes[v].refs == 1 && vnodes[v].nodes == map[]
      requires vnodes == s[v := vnodes[v]] && own == o.(held := o.held + multiset{v})
      modifies this, fIdPool
      ensures Consistent() && vnodes == s && own == o
    {
      ReleaseReference(v);
      assert vnodes == s;
      assert own.held == o.held;
    }

    /** What CreateSymlink, Create and CreateDir share: a new vnode with an id, linked in d. */
    method AddVnode(d: Ref, name: string, kind: Kind) returns (ok: bool, v: Ref)
      requires Valid() && d in vnodes && vnodes[d].kind == Directory && name !in vnodes[d].nodes
      modifies this, fIdPool
      ensures Valid()
      ensures !ok <==> |old(fIds)| == 0x7fff_ffff
      ensures !ok ==> vnodes == old(vnodes) && own == old(own)
      ensures ok ==> v !in old(vnodes) && v in vnodes && 1 <= vnodes[v].id <= 0x7fff_ffff && vnodes[v].id !in old(fIds)
      ensures ok ==> vnodes == WithNewEntry(old(vnodes), d, v, Vnode(kind, vnodes[v].id, name, 1, map[]))
      ensures ok ==> own == old(own).(holder := old(own).holder[v := d])
    {
      ok, v := MakeVnode(kind, name);
      if ok {
        LeafSubtree(own.holder, v, d);
        InsertNode(d, v);
        assert own.held == old(own).held;
      }
    }

    method CreateSymlink(d: Ref, name: string) returns (st: Status, ghost v: Ref)
      requires Valid() && Held(own, d)
      modifies this, fIdPool
      ensures Valid()
      ensures d in old(vnodes)
      ensures st == OK ==>
                && v !in old(vnodes) && vnodes.Keys == old(vnodes).Keys + {v}
                && vnodes[v] == Vnode(Symlink, vnodes[v].id, name, 1, map[])
                && 1 <= vnodes[v].id <= 0x7fff_ffff && vnodes[v].id !in old(fIds)
                && vnodes[d] == old(vnodes)[d].(nodes := old(vnodes)[d].nodes[name := v])
                && (forall w <- old(vnodes) :: w != d ==> vnodes[w] == old(vnodes)[w])
                && own == old(own).(holder := old(own).holder[v := d])
      ensures st != OK ==> vnodes == old(vnodes) && own == old(own)
      ensures st == NotADirectory <==> old(vnodes)[d].kind != Directory
      ensures st == FileExists <==> Entry(old(vnodes), d, name).Some?
      ensures st == OK <==> old(vnodes)[d].kind == Directory && Entry(old(vnodes), d, name).None? && |old(fIds)| != 0x7fff_ffff
      ensures st in {OK, NotADirectory, FileExists, NoMemory}
    {
      v := d;
      assert EntriesLinked(vnodes, own, d);
      if vnodes[d].kind != Directory {
        return NotADirectory, v;
      }
      if name in vnodes[d].nodes {
        return FileExists, v;
      }
      var ok;
      ok, v := AddVnode(d, name, Symlink);
      st := if ok then OK else NoMemory;
    }

    method CreateDir(d: Ref, name: string) returns (st: Status, ghost v: Ref)
      requires Valid() && Held(own, d)
      modifies this, fIdPool
      ensures Valid()
      ensures d in old(vnodes)
      ensures st == OK ==>
                && v !in old(vnodes) && vnodes.Keys == old(vnodes).Keys + {v}
                && vnodes[v] == Vnode(Directory, vnodes[v].id, name, 1, map[])
                && 1 <= vnodes[v].id <= 0x7fff_ffff && vnodes[v].id !in old(fIds)
                && vnodes[d] == old(vnodes)[d].(nodes := old(vnodes)[d].nodes[name := v])
                && (forall w <- old(vnodes) :: w != d ==> vnodes[w] == old(vnodes)[w])
                && own == old(own).(holder := old(own).holder[v := d])
      ensures st != OK ==> vnodes == old(vnodes) && own == old(own)
      ensures st == NotADirectory <==> old(vnodes)[d].kind != Directory
      ensures st == FileExists <==> old(vnodes)[d].kind == Directory && (Entry(old(vnodes), d, name).Some? || name in {".", ".."})
      ensures st == NoMemory ==> |old(fIds)| == 0x7fff_ffff
      ensures st == OK ==> |old(fIds)| != 0x7fff_ffff
      ensures st in {OK, NotADirectory, FileExists, NoMemory}
    {
      v := d;
      assert EntriesLinked(vnodes, own, d);
      if vnodes[d].kind != Directory {
        return NotADirectory, v;
      }
      if name in vnodes[d].nodes || name == "." || name == ".." {
        return FileExists, v;
      }
      var ok;
      ok, v := AddVnode(d, name, Directory);
      st := if ok then OK else NoMemory;
    }

    /** `id` is that of the file created or, without O_EXCL, of the one there was. */
    method Create(d: Ref, name: string, excl: bool) returns (st: Status, id: int, ghost v: Ref)
      requires Valid() && Held(own, d)
      modifies this, fIdPool
      ensures Valid()
      ensures d in old(vnodes)
      ensures var there := Entry(old(vnodes), d, name);
              && (there.Some? ==> there.value in old(vnodes))
              && st == (if old(vnodes)[d].kind != Directory then NotADirectory
                        else if name in {".", ".."} then IsADirectory
                        else if there.None? then if |old(fIds)| != 0x7fff_ffff then OK else NoMemory
                        else if old(vnodes)[there.value].kind == Directory then IsADirectory
                        else if excl then FileExists else OK)
              && (st == OK && there.Some? ==> id == old(vnodes)[there.value].id)
      ensures st == OK && Entry(old(vnodes), d, name).None? ==>
                && v !in old(vnodes) && vnodes.Keys == old(vnodes).Keys + {v}
                && vnodes[v] == Vnode(File, vnodes[v].id, name, 2, map[])
                && id == vnodes[v].id && 1 <= vnodes[v].id <= 0x7fff_ffff && vnodes[v].id !in old(fIds)
                && vnodes[d] == old(vnodes)[d].(nodes := old(vnodes)[d].nodes[name := v])
                && (forall w <- old(vnodes) :: w != d ==> vnodes[w] == old(vnodes)[w])
                && own == old(own).(holder := old(own).holder[v := d], held := old(own).held + multiset{v})
      ensures st != OK || Entry(old(vnodes), d, name).Some? ==> vnodes == old(vnodes) && own == old(own)
    {
      v, id := d, 0;
      assert EntriesLinked(vnodes, own, d);
      if vnodes[d].kind != Directory {
        return NotADirectory, id, v;
      }
      if name == "." || name == ".." {
        return IsADirectory, id, v;
      }
      if name in vnodes[d].nodes {
        var there := vnodes[d].nodes[name];
        if vnodes[there].kind == Directory {
          return IsADirectory, id, v;
        }
        if excl {
          return FileExists, id, v;
        }
        return OK, vnodes[there].id, v;
      }
      var ok, made := AddVnode(d, name, File);
      v := made;
      if !ok {
        return NoMemory, id, v;
      }
      id := vnodes[made].id;
      assert Registered(vnodes, fIds, made);
      var got;
      st, got := GetVnode(id);
    }

    method Unlink(d: Ref, name: string, vfsPut: bool) returns (st: Status)
      requires Valid() && Held(own, d)
      requires vfsPut ==> var c := Entry(vnodes, d, name); c.Some? && Held(own, c.value)
      modifies this, fIdPool
      ensures Valid()
      ensures d in old(vnodes) && EntriesLinked(old(vnodes), old(own), d)
      ensures st != OK ==> vnodes == old(vnodes) && own == old(own)
      ensures var c := Entry(old(vnodes), d, name);
              if old(vnodes)[d].kind != Directory then st == NotADirectory
              else if c.None? then st == EntryNotFound
              else if old(vnodes)[c.value].kind == Directory then st == IsADirectory
              else st == OK && var k := if vfsPut then 2 else 1;
                vnodes == WithoutEntry(old(vnodes), d, name, k) && own == WithoutEntryOwners(old(own), c.value, k)
      ensures st == OK ==> var c := old(vnodes)[d].nodes[name];
                && vnodes.Keys == old(vnodes).Keys - (if old(vnodes)[c].refs <= (if vfsPut then 2 else 1) then {c} else {})
                && vnodes[d] == old(vnodes)[d].(nodes := old(vnodes)[d].nodes - {name})
                && (c in vnodes ==> vnodes[c] == old(vnodes)[c].(refs := old(vnodes)[c].refs - (if vfsPut then 2 else 1)))
                && (forall w <- vnodes :: w != c && w != d ==> vnodes[w] == old(vnodes)[w])
                && own == Owners(old(own).holder - {c}, if vfsPut then old(own).held - multiset{c} else old(own).held, old(own).root, old(own).dying)
    {
      assert EntriesLinked(vnodes, own, d);
      if vnodes[d].kind != Directory {
        return NotADirectory;
      }
      if name !in vnodes[d].nodes {
        return EntryNotFound;
      }
      var c := vnodes[d].nodes[name];
      if vnodes[c].kind == Directory {
        return IsADirectory;
      }
      assert EntriesLinked(vnodes, own, c);
      NoSelfEntry(vnodes, own, d, name);
      RemoveEntry(d, name, vfsPut);
      st := OK;
    }

    method RemoveDir(d: Ref, name: string) returns (st: Status)
      requires Valid() && Held(own, d)
      modifies this, fIdPool
      ensures Valid()
      ensures d in old(vnodes) && EntriesLinked(old(vnodes), old(own), d)
      ensures st != OK ==> vnodes == old(vnodes) && own == old(own)
      ensures var c := Entry(old(vnodes), d, name);
              if old(vnodes)[d].kind != Directory then st == NotADirectory
              else if c.None? then st == EntryNotFound
              else if old(vnodes)[c.value].kind != Directory then st == NotADirectory
              else if old(vnodes)[c.value].nodes != map[] then st == DirectoryNotEmpty
              else st == OK && vnodes == WithoutEntry(old(vnodes), d, name, 1)
                            && own == WithoutEntryOwners(old(own), c.value, 1)
      ensures st == OK ==> var c := old(vnodes)[d].nodes[name];
                && vnodes.Keys == old(vnodes).Keys - (if old(vnodes)[c].refs <= 1 then {c} else {})
                && vnodes[d] == old(vnodes)[d].(nodes := old(vnodes)[d].nodes - {name})
                && (c in vnodes ==> vnodes[c] == old(vnodes)[c].(refs := old(vnodes)[c].refs - 1))
                && (forall w <- vnodes :: w != c && w != d ==> vnodes[w] == old(vnodes)[w])
                && own == Owners(old(own).holder - {c}, old(own).held, old(own).root, old(own).dying)
    {
      assert EntriesLinked(vnodes, own, d);
      if vnodes[d].kind != Directory {
        return NotADirectory;
      }
      if name !in vnodes[d].nodes {
        return EntryNotFound;
      }
      var c := vnodes[d].nodes[name];
      if vnodes[c].kind != Directory {
        return NotADirectory;
      }
      if vnodes[c].nodes != map[] {
        return DirectoryNotEmpty;
      }
      NoSelfEntry(vnodes, own, d, name);
      RemoveEntry(d, name, false);
      st := OK;
    }

    /** RemoveNode, then the references: the VFS's own if it lets go at once, and the link's. */
    method RemoveEntry(d: Ref, name: string, vfsPut: bool)
      requires Valid() && d in vnodes && name in vnodes[d].nodes
      requires var c := vnodes[d].nodes[name]; c in vnodes && vnodes[c].nodes == map[] && (vfsPut ==> Held(own, c))
      modifies this, fIdPool
      ensures Valid()
      ensures var k, c := if vfsPut then 2 else 1, old(vnodes)[d].nodes[name];
              vnodes == WithoutEntry(old(vnodes), d, name, k) && own == WithoutEntryOwners(old(own), c, k)
    {
      var c := vnodes[d].nodes[name];
      assert Counted(vnodes, own, c);
      NoSelfEntry(vnodes, own, d, name);
      DetachNode(d, name);
      if vfsPut {
        ReleaseTwice(c);
      } else {
        ReleaseReference(c);
      }
    }

    method ReleaseTwice(v: Ref)
      requires Consistent() && own.held[v] >= 2 && v in vnodes && vnodes[v].nodes == map[]
      modifies this, fIdPool
      ensures Consistent() && own == old(own).(held := old(own.held) - multiset{v, v})
      ensures vnodes == DropRefs(old(vnodes), v, 2)
    {
      assert Counted(vnodes, own, v);
      DropRefsTwice(vnodes, v);
      ReleaseReference(v);
      assert vnodes[v].nodes == map[] && Held(own, v);
      ReleaseReference(v);
      assert own.held == old(own.held) - multiset{v, v};
    }

    /** The end of Rename, with the target gone: RemoveNode, SetName, and fNodes.Insert. */
    method MoveEntry(src: Ref, from: string, v: Ref, dst: Ref, to: string)
      requires Valid() && src in vnodes && from in vnodes[src].nodes && vnodes[src].nodes[from] == v
      requires dst in vnodes && vnodes[dst].kind == Directory && to !in vnodes[dst].nodes
      requires !InSubtree(own.holder, v, dst)
      modifies `vnodes, `own
      ensures Valid() && v in old(vnodes)
      ensures vnodes == Moved(old(vnodes), src, from, v, dst, to)
      ensures own == old(own).(holder := old(own).holder[v := dst])
    {
      assert EntriesLinked(vnodes, own, src);
      NoSelfEntry(vnodes, own, src, from);
      SubtreeShrinks(own.holder - {v}, own.holder, v, dst);
      DetachNode(src, from);
      SetName(v, to);
      InsertNode(dst, v);
      assert own.held == old(own).held;
      assert own.holder == old(own).holder[v := dst];
    }

    method SetName(v: Ref, name: string)
      requires Consistent() && v in vnodes && v !in own.holder
      modifies `vnodes
      ensures Consistent() && vnodes == old(vnodes)[v := old(vnodes)[v].(name := name)]
    {
      RelabelKeeps(vnodes, own, v, vnodes[v].(name := name));
      vnodes := vnodes[v := vnodes[v].(name := name)];
      SameIds(old(vnodes), vnodes, fIds);
    }

    /** The requirement is only for a call that gets past the error returns. */
    method Rename(src: Ref, from: string, dst: Ref, to: string, vfsPut: bool) returns (st: Status)
      requires Valid() && Held(own, src) && Held(own, dst)
      requires RenameProceeds(vnodes, src, from, dst, to) ==> MayRename(vnodes, own, src, from, dst, to)
      requires var t := Entry(vnodes, dst, to);
               vfsPut ==> t.Some? && Held(own, t.value) && t.value in vnodes && vnodes[t.value].kind != Directory
      modifies this, fIdPool
      ensures Valid()
      ensures st != OK ==> vnodes == old(vnodes) && own == old(own)
      ensures src in old(vnodes) && dst in old(vnodes)
      ensures st == NotADirectory <==> old(vnodes)[src].kind != Directory || old(vnodes)[dst].kind != Directory
      ensures st == EntryNotFound <==> old(vnodes)[src].kind == old(vnodes)[dst].kind == Directory
                                       && Entry(old(vnodes), src, from).None?
      ensures st in {OK, NotADirectory, EntryNotFound, DirectoryNotEmpty}
      ensures st == DirectoryNotEmpty <==>
                && old(vnodes)[src].kind == old(vnodes)[dst].kind == Directory && Entry(old(vnodes), src, from).Some?
                && var t := Entry(old(vnodes), dst, to); t.Some? && (t.value in old(vnodes) ==> old(vnodes)[t.value].nodes != map[])
      ensures st == OK <==> RenameProceeds(old(vnodes), src, from, dst, to)
      ensures st == OK ==>
                var k := if vfsPut then 2 else 1;
                && TargetApart(old(vnodes), src, from, dst, to)
                && vnodes == Renamed(old(vnodes), src, from, dst, to, k)
                && own == RenamedOwners(old(vnodes), old(own), src, from, dst, to, k)
      ensures st == OK ==>
                var t, v, o := Entry(old(vnodes), dst, to), old(vnodes)[src].nodes[from], old(own);
                && own.holder == (if t.Some? then o.holder - {t.value} else o.holder)[v := dst]
                && own.held == (if vfsPut then o.held - multiset{t.value} else o.held)
                && own.root == o.root && own.dying == o.dying
    {
      assert EntriesLinked(vnodes, own, src) && EntriesLinked(vnodes, own, dst);
      if vnodes[dst].kind != Directory || vnodes[src].kind != Directory {
        return NotADirectory;
      }
      if from !in vnodes[src].nodes {
        return EntryNotFound;
      }
      ghost var s, o, k := vnodes, own, if vfsPut then 2 else 1;
      var v := vnodes[src].nodes[from];
      st := ClearTarget(dst, to, vfsPut);
      if st != OK {
        return;
      }
      TargetIsOther(s, o, src, from, dst, to);
      SubtreeShrinks(own.holder, o.holder, v, dst);
      TargetGoneOnly(s, o, dst, to, k, src, from);
      TargetGoneOnly(s, o, dst, to, k, dst, to);
      MoveEntry(src, from, v, dst, to);
    }

    /** The start of Rename: what stands at the destination is removed the way RemoveDir or
        Unlink removes it. */
    method ClearTarget(dst: Ref, to: string, vfsPut: bool) returns (st: Status)
      requires Valid() && Held(own, dst) && dst in vnodes && vnodes[dst].kind == Directory
      requires var t := Entry(vnodes, dst, to);
               vfsPut ==> t.Some? && Held(own, t.value) && t.value in vnodes && vnodes[t.value].kind != Directory
      modifies this, fIdPool
      ensures Valid()
      ensures to in old(vnodes)[dst].nodes ==> old(vnodes)[dst].nodes[to] in old(vnodes)
      ensures st == OK || st == DirectoryNotEmpty
      ensures st == OK <==> (to in old(vnodes)[dst].nodes ==> old(vnodes)[old(vnodes)[dst].nodes[to]].nodes == map[])
      ensures st != OK ==> vnodes == old(vnodes) && own == old(own)
      ensures st == OK ==> var k := if vfsPut then 2 else 1;
                && vnodes == TargetGone(old(vnodes), dst, to, k)
                && own == TargetGoneOwners(old(vnodes), old(own), dst, to, k)
    {
      assert EntriesLinked(vnodes, own, dst);
      st := OK;
      if to in vnodes[dst].nodes {
        var target := vnodes[dst].nodes[to];
        assert EntriesLinked(vnodes, own, target);
        if vnodes[target].kind == Directory {
          st := RemoveDir(dst, to);
        } else {
          st := Unlink(dst, to, vfsPut);
        }
      }
    }

    /** The id found is that of the entry, so GetVnode with it reaches that very vnode. What
        is found for ".." is not part of this model. */
    method Lookup(d: Ref, name: string) returns (st: Status, id: int)
      requires Valid() && Held(own, d) && name != ".."
      ensures d in vnodes
      ensures st == OK <==> vnodes[d].kind == Directory && (name == "." || Entry(vnodes, d, name).Some?)
      ensures st == NotADirectory <==> vnodes[d].kind != Directory
      ensures st in {OK, NotADirectory, EntryNotFound}
      ensures st == OK ==> id in fIds && (if name == "." then Some(d) else Entry(vnodes, d, name)) == Some(fIds[id])
    {
      assert EntriesLinked(vnodes, own, d) && Registered(vnodes, fIds, d);
      if vnodes[d].kind != Directory {
        return NotADirectory, 0;
      }
      if name == "." {
        return OK, vnodes[d].id;
      }
      if name !in vnodes[d].nodes {
        return EntryNotFound, 0;
      }
      var c := vnodes[d].nodes[name];
      assert Registered(vnodes, fIds, c);
      return OK, vnodes[c].id;
    }

    // ---------- mounting and unmounting ----------

    method Mount() returns (root: Ref)
      requires Valid() && vnodes == map[] && own == Owners(map[], multiset{}, None, {})
      modifies this, fIdPool
      ensures Valid() && own == Owners(map[], multiset{root}, Some(root), {})
      ensures root in vnodes && vnodes == map[root := Vnode(Directory, vnodes[root].id, "", 2, map[])]
      ensures 1 <= vnodes[root].id <= 0x7fff_ffff
    {
      root := MakeRoot();
      assert Registered(vnodes, fIds, root);
      var st, again := GetVnode(vnodes[root].id);
    }

    method MakeRoot() returns (root: Ref)
      requires Valid() && vnodes == map[] && own == Owners(map[], multiset{}, None, {})
      modifies this, fIdPool
      ensures Valid() && own == Owners(map[], multiset{}, Some(root), {})
      ensures root in vnodes && vnodes == map[root := Vnode(Directory, vnodes[root].id, "", 1, map[])]
      ensures 1 <= vnodes[root].id <= 0x7fff_ffff
    {
      IdsLive(vnodes, fIds);
      var ok;
      ok, root := MakeVnode(Directory, "");
      SetRoot(root);
    }

    /** fRootVnode takes over the creator's reference. */
    method SetRoot(v: Ref)
      requires Valid() && fRootVnode.None? && Held(own, v) && v !in own.holder && vnodes[v].kind == Directory
      modifies `fRootVnode, `own
      ensures Valid() && own == old(own).(held := old(own).held - multiset{v}, root := Some(v))
    {
      ghost var o := own.(held := own.held - multiset{v}, root := Some(v));
      RootKeeps(vnodes, own, o);
      fRootVnode, own := Some(v), o;
    }

    /** The volume lets go of its root. If the VFS holds nothing either, every vnode is gone,
        and the pool is the one free block it started with. */
    method Unmount()
      requires Valid() && fRootVnode.Some?
      modifies this, fIdPool
      ensures Valid() && own.root == None && own.held == old(own.held)
      ensures forall w <- vnodes :: w in old(vnodes) && vnodes[w] == old(vnodes)[w].(refs := vnodes[w].refs)
      ensures forall w <- old(vnodes) :: w in vnodes <==> Anchored(own, old(own.holder), w)
      ensures own.held == multiset{} ==>
                vnodes == map[] && fIds == map[] && fIdPool.fAdrMap == map[1 := Extent(1, 0x7fff_ffff, false)]
    {
      var root := fRootVnode.value;
      ghost var o := own.(held := own.held + multiset{root}, root := None);
      RootKeeps(vnodes, own, o);
      fRootVnode, own := None, o;
      PutVnode(root);
      assert own.held == old(own.held);
      if own.held == multiset{} {
        NothingLeft(vnodes, own);
        NoIds(vnodes, fIds, fIdPool.fAdrMap);
      }
    }

    lemma NoIds(s: Vnodes, ids: map<int, Ref>, m: Blocks)
      requires IdsAgree(s, ids) && s == map[] && PoolAgrees(m, ids) && Canonical(m, FIRST_ID, FIRST_ID + ID_COUNT)
      ensures ids == map[] && m == Whole(FIRST_ID, FIRST_ID + ID_COUNT)
    {
      IdsLive(s, ids);
      assert Live(m) == {};
      EmptyPool(m, FIRST_ID, FIRST_ID + ID_COUNT);
    }
  }
}
