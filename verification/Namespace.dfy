/** The vnode graph: which vnode is linked where, who holds a reference to it, and what
    must be true of that at every step. Vnodes are named by handles, and the objects that
    exist at a moment are a map from handles to their fields. */
module Namespace {
  import opened Basics

  // The address of a vnode object.
  datatype Ref = Ref(adr: int)

  datatype Kind = File | Symlink | Directory

  // `nodes` is a directory's fNodes; other vnodes have none.
  datatype Vnode = Vnode(kind: Kind, id: int, name: string, refs: int, nodes: map<string, Ref>)

  type Vnodes = map<Ref, Vnode>

  // Who owns references: the directory each linked vnode is in, the references taken with
  // GetVnode and not yet given back, the volume's own reference to its root, and the
  // vnodes whose destructors are running.
  datatype Owners = Owners(holder: map<Ref, Ref>, held: multiset<Ref>, root: Option<Ref>, dying: set<Ref>)

  function B2N(b: bool): int { if b then 1 else 0 }

  // ---------- no cycles ----------

  /** Climbing from any member of S stays in S for ever. */
  ghost predicate Closed(holder: map<Ref, Ref>, S: set<Ref>) {
    S != {} && forall v <- S :: v in holder && holder[v] in S
  }

  ghost predicate Acyclic(holder: map<Ref, Ref>) {
    forall S: set<Ref> :: !Closed(holder, S)
  }

  /** Climbing n directories up from v leads to a. */
  ghost predicate Climbs(holder: map<Ref, Ref>, v: Ref, a: Ref, n: nat)
    decreases n
  {
    if n == 0 then v == a else v in holder && Climbs(holder, holder[v], a, n - 1)
  }

  /** d is v or lies below it. */
  ghost predicate InSubtree(holder: map<Ref, Ref>, v: Ref, d: Ref) {
    exists n: nat :: Climbs(holder, d, v, n)
  }

  lemma {:induction false} ClimbOneMore(holder: map<Ref, Ref>, v: Ref, a: Ref, n: nat)
    requires Climbs(holder, v, a, n) && a in holder
    ensures Climbs(holder, v, holder[a], n + 1)
    decreases n
  {
    if n > 0 {
      ClimbOneMore(holder, holder[v], a, n - 1);
    }
  }

  /** The vnodes met on the way up, the last one excluded. */
  ghost function Path(holder: map<Ref, Ref>, v: Ref, n: nat): set<Ref>
    decreases n
  {
    if n == 0 || v !in holder then {} else {v} + Path(holder, holder[v], n - 1)
  }

  lemma {:induction false} PathClimbs(holder: map<Ref, Ref>, v: Ref, a: Ref, n: nat)
    requires Climbs(holder, v, a, n)
    ensures forall w <- Path(holder, v, n) :: w in holder && (holder[w] == a || holder[w] in Path(holder, v, n))
    ensures v == a || v in Path(holder, v, n)
    decreases n
  {
    if n > 0 {
      PathClimbs(holder, holder[v], a, n - 1);
    }
  }

  /** Moving v into d keeps the graph free of cycles exactly when d is not in v's subtree. */
  lemma MoveKeepsForest(holder: map<Ref, Ref>, v: Ref, d: Ref)
    requires Acyclic(holder)
    ensures Acyclic(holder[v := d]) <==> !InSubtree(holder, v, d)
  {
    var moved := holder[v := d];
    if n: nat :| Climbs(holder, d, v, n) {
      MoveIntoOwnSubtree(holder, moved, v, d, n);
    } else {
      forall S: set<Ref> ensures !Closed(moved, S) {
        if Closed(moved, S) {
          ClosedAfterMove(holder, moved, v, d, S);
        }
      }
    }
  }

  lemma MoveIntoOwnSubtree(holder: map<Ref, Ref>, moved: map<Ref, Ref>, v: Ref, d: Ref, n: nat)
    requires moved == holder[v := d] && Climbs(holder, d, v, n)
    ensures !Acyclic(moved)
  {
    PathClimbs(holder, d, v, n);
    assert Closed(moved, Path(holder, d, n) + {v});
  }

  lemma ClosedAfterMove(holder: map<Ref, Ref>, moved: map<Ref, Ref>, v: Ref, d: Ref, S: set<Ref>)
    requires moved == holder[v := d] && Closed(moved, S) && !InSubtree(holder, v, d)
    ensures !Acyclic(holder)
  {
    if v !in S {
      assert Closed(holder, S);
    } else {
      var T := set w | w in S && InSubtree(holder, w, d);
      assert Climbs(holder, d, d, 0);
      assert d in T;
      forall w | w in T ensures w in holder && holder[w] in T {
        var n: nat :| Climbs(holder, d, w, n);
        ClimbOneMore(holder, d, w, n);
      }
      assert Closed(holder, T);
    }
  }

  lemma UnlinkKeepsForest(holder: map<Ref, Ref>, v: Ref)
    requires Acyclic(holder)
    ensures Acyclic(holder - {v})
  {
    var rest := holder - {v};
    forall S: set<Ref> ensures !Closed(rest, S) {
      assert Closed(rest, S) ==> Closed(holder, S);
    }
  }

  /** A vnode that no other is linked in has nothing below it. */
  lemma LeafSubtree(holder: map<Ref, Ref>, v: Ref, d: Ref)
    requires v != d && v !in holder.Values
    ensures !InSubtree(holder, v, d)
  {
    forall n: nat ensures !Climbs(holder, d, v, n) {
      LeafNotAbove(holder, v, d, n);
    }
  }

  lemma {:induction false} LeafNotAbove(holder: map<Ref, Ref>, v: Ref, d: Ref, n: nat)
    requires v != d && v !in holder.Values
    ensures !Climbs(holder, d, v, n)
    decreases n
  {
    if n > 0 && d in holder {
      assert holder[d] in holder.Values;
      LeafNotAbove(holder, v, holder[d], n - 1);
    }
  }

  // ---------- the invariant ----------

  /** The count of v is what its link, the root reference and the VFS account for. */
  ghost predicate Counted(s: Vnodes, o: Owners, v: Ref)
    requires v in s
  {
    && s[v].refs == B2N(v in o.holder) + B2N(o.root == Some(v)) + o.held[v]
    && (s[v].refs == 0 <==> v in o.dying)
  }

  /** Every entry of d is a vnode linked in d under its own name. */
  ghost predicate EntriesLinked(s: Vnodes, o: Owners, d: Ref)
    requires d in s
  {
    && (s[d].kind != Directory ==> s[d].nodes == map[])
    && forall n <- s[d].nodes :: var c := s[d].nodes[n];
         c in s && s[c].name == n && c in o.holder && o.holder[c] == d
  }

  /** A vnode that counts as linked is an entry of the directory that holds it. */
  ghost predicate LinkIsEntry(s: Vnodes, o: Owners, c: Ref)
    requires c in o.holder
  {
    && c in s && o.holder[c] in s
    && s[c].name in s[o.holder[c]].nodes && s[o.holder[c]].nodes[s[c].name] == c
  }

  /** The VFS, or a call in progress, has a reference to v to give back. */
  ghost predicate Held(o: Owners, v: Ref) {
    v in o.held
  }

  ghost predicate Inv(s: Vnodes, o: Owners) {
    && (forall v {:trigger Counted(s, o, v)} :: v in s ==> Counted(s, o, v))
    && (forall d {:trigger EntriesLinked(s, o, d)} :: d in s ==> EntriesLinked(s, o, d))
    && (forall c {:trigger LinkIsEntry(s, o, c)} :: c in o.holder ==> LinkIsEntry(s, o, c))
    && (forall v {:trigger Held(o, v)} :: Held(o, v) ==> v in s)
    && o.dying <= s.Keys
    && (o.root.Some? ==> o.root.value in s && s[o.root.value].kind == Directory && o.root.value !in o.holder)
    && Acyclic(o.holder)
  }

  /** v is linked in no directory and is not the root. */
  ghost predicate Loose(o: Owners, v: Ref) {
    v !in o.holder && o.root != Some(v)
  }

  /** The same object, apart from its reference count. */
  predicate SameButRefs(a: Vnode, b: Vnode) {
    a.(refs := 0) == b.(refs := 0)
  }

  /** t came from s by destroying vnodes; the others keep everything but their counts. */
  ghost predicate Shrunk(s: Vnodes, t: Vnodes) {
    && t.Keys <= s.Keys
    && forall v <- t :: SameButRefs(t[v], s[v])
  }

  // ---------- what survives ----------

  /** Something keeps v: climbing from v leads to the root, to a vnode the VFS holds, or to
      one whose destructor has not got to it yet. */
  ghost predicate Anchored(o: Owners, holder: map<Ref, Ref>, v: Ref) {
    exists n: nat, a :: Climbs(holder, v, a, n) && Anchor(o, a)
  }

  ghost predicate Anchor(o: Owners, a: Ref) {
    o.root == Some(a) || Held(o, a) || a in o.dying
  }

  /** A vnode that nothing keeps is linked in another one that nothing keeps. */
  lemma LooseIsLinked(s: Vnodes, o: Owners, v: Ref)
    requires Inv(s, o) && v in s && !Anchored(o, o.holder, v)
    ensures v in o.holder && o.holder[v] in s && !Anchored(o, o.holder, o.holder[v])
  {
    assert Counted(s, o, v);
    assert Climbs(o.holder, v, v, 0);
    assert !Anchor(o, v);
    assert LinkIsEntry(s, o, v);
    forall n: nat, a | Climbs(o.holder, o.holder[v], a, n) ensures !Anchor(o, a) {
      assert Climbs(o.holder, v, a, n + 1);
    }
  }

  /** Nothing leaks: every vnode in existence is kept by something. */
  lemma NoLeak(s: Vnodes, o: Owners, v: Ref)
    requires Inv(s, o) && v in s
    ensures Anchored(o, o.holder, v)
  {
    var S := set w | w in s && !Anchored(o, o.holder, w);
    forall w | w in S ensures w in o.holder && o.holder[w] in S {
      LooseIsLinked(s, o, w);
    }
    assert !Closed(o.holder, S);
    assert v !in S;
  }

  /** With no root, no held vnode and no destructor running, no vnode is left. */
  lemma NothingLeft(s: Vnodes, o: Owners)
    requires Inv(s, o) && o.root == None && o.held == multiset{} && o.dying == {}
    ensures s == map[]
  {
    if v :| v in s {
      NoLeak(s, o, v);
    }
  }

  // ---------- a release destroys exactly what nothing keeps any more ----------

  /** t shrank from s, and both are in order with their owners. */
  ghost predicate Released(s: Vnodes, o: Owners, t: Vnodes, p: Owners) {
    Inv(s, o) && Inv(t, p) && Shrunk(s, t)
  }

  lemma LinksKept(s: Vnodes, o: Owners, t: Vnodes, p: Owners, c: Ref)
    requires Released(s, o, t, p)
    ensures c in p.holder ==> c in o.holder && o.holder[c] == p.holder[c]
    ensures c in o.holder && o.holder[c] in t ==> c in t && c in p.holder
  {
    if c in p.holder {
      assert LinkIsEntry(t, p, c) && EntriesLinked(s, o, p.holder[c]);
    }
    if c in o.holder && o.holder[c] in t {
      assert LinkIsEntry(s, o, c) && EntriesLinked(t, p, o.holder[c]);
    }
  }

  lemma {:induction false} ClimbsBefore(s: Vnodes, o: Owners, t: Vnodes, p: Owners, v: Ref, a: Ref, n: nat)
    requires Released(s, o, t, p) && Climbs(p.holder, v, a, n)
    ensures Climbs(o.holder, v, a, n)
    decreases n
  {
    if n > 0 {
      LinksKept(s, o, t, p, v);
      ClimbsBefore(s, o, t, p, p.holder[v], a, n - 1);
    }
  }

  lemma {:induction false} KeptBelow(s: Vnodes, o: Owners, t: Vnodes, p: Owners, v: Ref, a: Ref, n: nat)
    requires Released(s, o, t, p) && Climbs(o.holder, v, a, n) && a in t
    ensures v in t
    decreases n
  {
    if n > 0 {
      KeptBelow(s, o, t, p, o.holder[v], a, n - 1);
      LinksKept(s, o, t, p, v);
    }
  }

  /** A vnode survives exactly when, in the graph as it was, climbing from it leads to
      something that is still kept afterwards. */
  lemma SurvivorsAreAnchored(s: Vnodes, o: Owners, t: Vnodes, p: Owners, v: Ref)
    requires Released(s, o, t, p) && v in s
    ensures v in t <==> Anchored(p, o.holder, v)
  {
    if v in t {
      NoLeak(t, p, v);
      var n: nat, a :| Climbs(p.holder, v, a, n) && Anchor(p, a);
      ClimbsBefore(s, o, t, p, v, a, n);
    }
    if Anchored(p, o.holder, v) {
      var n: nat, a :| Climbs(o.holder, v, a, n) && Anchor(p, a);
      KeptBelow(s, o, t, p, v, a, n);
    }
  }

  // ---------- what each step does to the invariant ----------

  function WithRefs(s: Vnodes, v: Ref, refs: int): Vnodes
    requires v in s
  {
    s[v := s[v].(refs := refs)]
  }

  function WithNodes(s: Vnodes, d: Ref, nodes: map<string, Ref>): Vnodes
    requires d in s
  {
    s[d := s[d].(nodes := nodes)]
  }

  /** v after k references to it are given back, when it has no entries to let go of. */
  function DropRefs(s: Vnodes, v: Ref, k: int): Vnodes
    requires v in s
  {
    if s[v].refs > k then WithRefs(s, v, s[v].refs - k) else s - {v}
  }

  lemma DropRefsTwice(s: Vnodes, v: Ref)
    requires v in s && s[v].refs > 1
    ensures DropRefs(DropRefs(s, v, 1), v, 1) == DropRefs(s, v, 2)
  {
  }

  /** GetVnode takes a reference. */
  lemma AcquireKeeps(s: Vnodes, o: Owners, v: Ref)
    requires Inv(s, o) && v in s && v !in o.dying
    ensures Inv(WithRefs(s, v, s[v].refs + 1), o.(held := o.held + multiset{v}))
  {
    assert Counted(s, o, v);
    RefsKeep(s, o, v, s[v].refs + 1, o.(held := o.held + multiset{v}));
  }

  /** Giving back a reference that was taken. */
  lemma GiveBackKeeps(s: Vnodes, o: Owners, v: Ref)
    requires Inv(s, o) && Held(o, v)
    ensures var rest := o.(held := o.held - multiset{v});
            && s[v].refs >= 1 && v !in o.dying
            && (s[v].refs == 1 ==> v !in o.holder && o.root != Some(v) && o.held[v] == 1)
            && Inv(WithRefs(s, v, s[v].refs - 1),
                   if s[v].refs == 1 then rest.(dying := rest.dying + {v}) else rest)
  {
    assert Counted(s, o, v);
    var rest := o.(held := o.held - multiset{v});
    RefsKeep(s, o, v, s[v].refs - 1, if s[v].refs == 1 then rest.(dying := rest.dying + {v}) else rest);
  }

  lemma RefsKeep(s: Vnodes, o: Owners, v: Ref, refs: int, p: Owners)
    requires Inv(s, o) && v in s && p.holder == o.holder && p.root == o.root
    requires refs + o.held[v] == s[v].refs + p.held[v] && (refs == 0 <==> v in p.dying)
    requires forall w :: w != v ==> p.held[w] == o.held[w] && (w in p.dying <==> w in o.dying)
    ensures Inv(WithRefs(s, v, refs), p)
  {
    var t := WithRefs(s, v, refs);
    forall w | w in t ensures Counted(t, p, w) && EntriesLinked(t, p, w) {
      assert Counted(s, o, w) && EntriesLinked(s, o, w);
    }
    forall c | c in p.holder ensures LinkIsEntry(t, p, c) {
      assert LinkIsEntry(s, o, c);
    }
    forall w | Held(p, w) ensures w in t {
      assert Held(o, w) || w == v;
    }
  }

  /** Taking the entry n out of d turns the link into a reference somebody owes. */
  lemma DetachKeeps(s: Vnodes, o: Owners, d: Ref, n: string)
    requires Inv(s, o) && d in s && n in s[d].nodes
    ensures var c := s[d].nodes[n];
            Inv(WithNodes(s, d, s[d].nodes - {n}), o.(holder := o.holder - {c}, held := o.held + multiset{c}))
  {
    var c := s[d].nodes[n];
    var t := WithNodes(s, d, s[d].nodes - {n});
    var p := o.(holder := o.holder - {c}, held := o.held + multiset{c});
    assert EntriesLinked(s, o, d);
    UnlinkKeepsForest(o.holder, c);
    forall w | w in t ensures Counted(t, p, w) && EntriesLinked(t, p, w) {
      assert Counted(s, o, w) && EntriesLinked(s, o, w);
    }
    forall w | w in p.holder ensures LinkIsEntry(t, p, w) {
      assert LinkIsEntry(s, o, w);
    }
    forall w | Held(p, w) ensures w in t {
      assert Held(o, w) || w == c;
    }
  }

  /** Entering v in d under its name turns an owed reference into the link. */
  ghost predicate CanAttach(s: Vnodes, o: Owners, d: Ref, v: Ref) {
    && d in s && s[d].kind == Directory && v in s && Held(o, v)
    && v !in o.holder && o.root != Some(v) && s[v].name !in s[d].nodes
    && !InSubtree(o.holder, v, d)
  }

  function Attached(s: Vnodes, d: Ref, v: Ref): Vnodes
    requires d in s && v in s
  {
    WithNodes(s, d, s[d].nodes[s[v].name := v])
  }

  /** A new vnode entered in d. */
  function WithNewEntry(s: Vnodes, d: Ref, v: Ref, vnode: Vnode): Vnodes
    requires d in s
  {
    Attached(s[v := vnode], d, v)
  }

  ghost function AttachedOwners(o: Owners, d: Ref, v: Ref): Owners {
    o.(holder := o.holder[v := d], held := o.held - multiset{v})
  }

  lemma AttachKeeps(s: Vnodes, o: Owners, d: Ref, v: Ref)
    requires Inv(s, o) && CanAttach(s, o, d, v)
    ensures Inv(Attached(s, d, v), AttachedOwners(o, d, v))
  {
    var t, p := Attached(s, d, v), AttachedOwners(o, d, v);
    MoveKeepsForest(o.holder, v, d);
    forall w | w in t ensures Counted(t, p, w) {
      assert Counted(s, o, w);
    }
    forall w | w in t ensures EntriesLinked(t, p, w) {
      AttachEntries(s, o, d, v, w);
    }
    forall w | w in p.holder ensures LinkIsEntry(t, p, w) {
      AttachLinks(s, o, d, v, w);
    }
    forall w | Held(p, w) ensures w in t {
      assert Held(o, w);
    }
  }

  lemma AttachEntries(s: Vnodes, o: Owners, d: Ref, v: Ref, w: Ref)
    requires Inv(s, o) && CanAttach(s, o, d, v) && w in s
    ensures EntriesLinked(Attached(s, d, v), AttachedOwners(o, d, v), w)
  {
    assert EntriesLinked(s, o, w);
  }

  lemma AttachLinks(s: Vnodes, o: Owners, d: Ref, v: Ref, w: Ref)
    requires Inv(s, o) && CanAttach(s, o, d, v) && (w in o.holder || w == v)
    ensures LinkIsEntry(Attached(s, d, v), AttachedOwners(o, d, v), w)
  {
    assert w != v ==> LinkIsEntry(s, o, w);
  }

  /** A destructor that has emptied its directory removes the object. */
  lemma DeleteKeeps(s: Vnodes, o: Owners, v: Ref)
    requires Inv(s, o) && v in o.dying && s[v].nodes == map[]
    ensures Inv(s - {v}, o.(dying := o.dying - {v}))
  {
    var t, p := s - {v}, o.(dying := o.dying - {v});
    assert Counted(s, o, v);
    forall w | w in t ensures Counted(t, p, w) && EntriesLinked(t, p, w) {
      assert Counted(s, o, w) && EntriesLinked(s, o, w);
    }
    forall c | c in p.holder ensures LinkIsEntry(t, p, c) {
      assert LinkIsEntry(s, o, c);
    }
    forall w | Held(p, w) ensures w in t {
      assert Held(o, w);
    }
  }

  /** A new vnode starts with one reference, owned by its creator. */
  lemma NewKeeps(s: Vnodes, o: Owners, v: Ref, vnode: Vnode)
    requires Inv(s, o) && v !in s && vnode.refs == 1 && vnode.nodes == map[]
    ensures Inv(s[v := vnode], o.(held := o.held + multiset{v}))
    ensures v !in o.holder && o.root != Some(v) && v !in o.holder.Values
  {
    var t, p := s[v := vnode], o.(held := o.held + multiset{v});
    assert !Held(o, v);
    forall c | c in o.holder ensures c != v && o.holder[c] != v { assert LinkIsEntry(s, o, c); }
    forall w | w in t ensures Counted(t, p, w) && EntriesLinked(t, p, w) {
      if w != v { assert Counted(s, o, w) && EntriesLinked(s, o, w); }
    }
    forall c | c in p.holder ensures LinkIsEntry(t, p, c) {
      assert LinkIsEntry(s, o, c);
    }
    forall w | Held(p, w) ensures w in t {
      assert Held(o, w) || w == v;
    }
  }

  /** The id of a vnode may change, and while it is linked nowhere its name too. */
  lemma RelabelKeeps(s: Vnodes, o: Owners, v: Ref, vnode: Vnode)
    requires Inv(s, o) && v in s && vnode == s[v].(id := vnode.id, name := vnode.name)
    requires v in o.holder ==> vnode.name == s[v].name
    ensures Inv(s[v := vnode], o)
  {
    var t := s[v := vnode];
    forall w | w in t ensures Counted(t, o, w) && EntriesLinked(t, o, w) {
      assert Counted(s, o, w) && EntriesLinked(s, o, w);
    }
    forall c | c in o.holder ensures LinkIsEntry(t, o, c) {
      assert LinkIsEntry(s, o, c);
    }
    forall w | Held(o, w) ensures w in t { }
  }

  /** The volume's reference to its root becomes one that is owed, or the other way round. */
  lemma RootKeeps(s: Vnodes, o: Owners, p: Owners)
    requires Inv(s, o) && p.holder == o.holder && p.dying == o.dying
    requires forall v :: B2N(p.root == Some(v)) + p.held[v] == B2N(o.root == Some(v)) + o.held[v]
    requires p.root.Some? ==> p.root.value in s && s[p.root.value].kind == Directory && p.root.value !in p.holder
    ensures Inv(s, p)
  {
    forall w | w in s ensures Counted(s, p, w) && EntriesLinked(s, p, w) {
      assert Counted(s, o, w) && EntriesLinked(s, o, w);
    }
    forall c | c in p.holder ensures LinkIsEntry(s, p, c) {
      assert LinkIsEntry(s, o, c);
    }
    forall w | Held(p, w) ensures w in s {
      assert Held(o, w) || o.root == Some(w);
    }
  }

  // ---------- what the directory operations amount to ----------

  function Entry(s: Vnodes, d: Ref, n: string): (e: Option<Ref>)
    ensures e.Some? <==> d in s && n in s[d].nodes
    ensures e.Some? ==> s[d].nodes[n] == e.value
  {
    if d in s && n in s[d].nodes then Some(s[d].nodes[n]) else None
  }

  /** The entry n gone from d, and k references to what it named given back. */
  function WithoutEntry(s: Vnodes, d: Ref, n: string, k: int): Vnodes
    requires d in s && n in s[d].nodes && s[d].nodes[n] in s
  {
    DropRefs(WithNodes(s, d, s[d].nodes - {n}), s[d].nodes[n], k)
  }

  /** The owners after the link of c and k references to it are given back. */
  ghost function WithoutEntryOwners(o: Owners, c: Ref, k: int): Owners {
    o.(holder := o.holder - {c}, held := if k == 2 then o.held - multiset{c} else o.held)
  }

  /** A new entry adds itself and disturbs no other. */
  lemma NewEntryOnly(s: Vnodes, d: Ref, v: Ref, vnode: Vnode, e: Ref, n: string)
    requires d in s && v !in s && vnode.nodes == map[]
    ensures Entry(WithNewEntry(s, d, v, vnode), e, n)
         == if e == d && n == vnode.name then Some(v) else Entry(s, e, n)
  {
  }

  /** Removing an entry of a vnode that has none itself disturbs no other, and the vnode goes
      exactly when the references given back were the last ones. */
  lemma WithoutEntryOnly(s: Vnodes, o: Owners, d: Ref, n: string, k: int, e: Ref, m: string)
    requires Inv(s, o) && d in s && n in s[d].nodes && 0 < k
    requires s[d].nodes[n] in s && s[s[d].nodes[n]].nodes == map[]
    ensures var t, c := WithoutEntry(s, d, n, k), s[d].nodes[n];
            && Entry(t, e, m) == (if e == d && m == n then None else Entry(s, e, m))
            && t.Keys == (if s[c].refs <= k then s.Keys - {c} else s.Keys)
            && (s[c].refs <= k <==> o.held[c] < k)
            && (forall w <- t :: w != c && w != d ==> t[w] == s[w])
            && (c in t ==> t[c] == s[c].(refs := s[c].refs - k))
            && t[d] == s[d].(nodes := s[d].nodes - {n})
  {
    var c := s[d].nodes[n];
    assert EntriesLinked(s, o, d) && Counted(s, o, c) && LinkIsEntry(s, o, c);
    NoSelfEntry(s, o, d, n);
  }

  lemma NoSelfEntry(s: Vnodes, o: Owners, d: Ref, n: string)
    requires Inv(s, o) && d in s && n in s[d].nodes
    ensures s[d].nodes[n] != d
  {
    assert EntriesLinked(s, o, d);
    assert !Closed(o.holder, {d});
  }

  lemma {:induction false} ClimbsInMore(small: map<Ref, Ref>, big: map<Ref, Ref>, v: Ref, a: Ref, n: nat)
    requires forall w <- small :: w in big && big[w] == small[w]
    requires Climbs(small, v, a, n)
    ensures Climbs(big, v, a, n)
    decreases n
  {
    if n > 0 {
      ClimbsInMore(small, big, small[v], a, n - 1);
    }
  }

  /** Taking links away makes no subtree larger. */
  lemma SubtreeShrinks(small: map<Ref, Ref>, big: map<Ref, Ref>, v: Ref, d: Ref)
    requires forall w <- small :: w in big && big[w] == small[w]
    requires !InSubtree(big, v, d)
    ensures !InSubtree(small, v, d)
  {
    if n: nat :| Climbs(small, d, v, n) {
      ClimbsInMore(small, big, d, v, n);
    }
  }

  /** Rename gets past all its error returns. */
  ghost predicate RenameProceeds(s: Vnodes, src: Ref, from: string, dst: Ref, to: string) {
    && src in s && from in s[src].nodes && s[src].nodes[from] in s
    && dst in s && s[dst].kind == Directory
    && (to in s[dst].nodes ==> s[dst].nodes[to] in s && s[s[dst].nodes[to]].nodes == map[])
  }

  /** What a caller must then have seen to: source and destination are not the same entry, and
      the destination is not inside what is moved. */
  ghost predicate MayRename(s: Vnodes, o: Owners, src: Ref, from: string, dst: Ref, to: string)
    requires src in s && from in s[src].nodes
  {
    !(src == dst && from == to) && !InSubtree(o.holder, s[src].nodes[from], dst)
  }

  /** The target of a rename, if there is one, gone with k references to it given back. */
  function TargetGone(s: Vnodes, dst: Ref, to: string, k: int): Vnodes
    requires dst in s && (to in s[dst].nodes ==> s[dst].nodes[to] in s)
  {
    if to in s[dst].nodes then WithoutEntry(s, dst, to, k) else s
  }

  ghost function TargetGoneOwners(s: Vnodes, o: Owners, dst: Ref, to: string, k: int): Owners
    requires dst in s
  {
    if to in s[dst].nodes then WithoutEntryOwners(o, s[dst].nodes[to], k) else o
  }

  /** v, linked nowhere, gets the name `to` and is entered in dst. */
  function EnteredAs(s: Vnodes, v: Ref, dst: Ref, to: string): Vnodes
    requires v in s && dst in s
  {
    Attached(s[v := s[v].(name := to)], dst, v)
  }

  lemma WithoutEntryKeeps(s: Vnodes, o: Owners, d: Ref, n: string, k: int)
    requires Inv(s, o) && d in s && n in s[d].nodes && s[d].nodes[n] in s && 0 < k
    ensures var t, c := WithoutEntry(s, d, n, k), s[d].nodes[n];
            && (forall w <- t :: w in s && t[w].id == s[w].id && t[w].kind == s[w].kind && t[w].name == s[w].name)
            && (forall w <- t :: w != c ==> t[w].refs == s[w].refs)
  {
    NoSelfEntry(s, o, d, n);
  }

  lemma TargetGoneOnly(s: Vnodes, o: Owners, dst: Ref, to: string, k: int, e: Ref, m: string)
    requires Inv(s, o) && dst in s && 0 < k
    requires to in s[dst].nodes ==> s[dst].nodes[to] in s && s[s[dst].nodes[to]].nodes == map[]
    ensures var t, target := TargetGone(s, dst, to, k), Entry(s, dst, to);
            && Entry(t, e, m) == (if e == dst && m == to then None else Entry(s, e, m))
            && t.Keys == s.Keys - (if target.Some? && o.held[target.value] < k then {target.value} else {})
            && (forall w <- t :: t[w].id == s[w].id && t[w].kind == s[w].kind && t[w].name == s[w].name)
            && (forall w <- t :: t[w].refs == s[w].refs - if target == Some(w) then k else 0)
  {
    if to in s[dst].nodes {
      WithoutEntryOnly(s, o, dst, to, k, e, m);
      WithoutEntryKeeps(s, o, dst, to, k);
    }
  }

  /** The entry `from` of src taken out and entered in dst as `to`. */
  function Moved(s: Vnodes, src: Ref, from: string, v: Ref, dst: Ref, to: string): Vnodes
    requires src in s && v in s && dst in s
  {
    EnteredAs(WithNodes(s, src, s[src].nodes - {from}), v, dst, to)
  }

  lemma MovedOnly(s: Vnodes, src: Ref, from: string, v: Ref, dst: Ref, to: string, e: Ref, m: string)
    requires src in s && v in s && dst in s && v != src && v != dst
    ensures var t := Moved(s, src, from, v, dst, to);
            && Entry(t, e, m) == (if e == dst && m == to then Some(v)
                                  else if e == src && m == from then None
                                  else Entry(s, e, m))
            && t.Keys == s.Keys
            && (forall w <- t :: t[w].id == s[w].id && t[w].kind == s[w].kind && t[w].refs == s[w].refs
                                 && t[w].name == if w == v then to else s[w].name)
  {
  }

  /** The target of a rename is not among the three vnodes the rename goes on to use. */
  predicate TargetApart(s: Vnodes, src: Ref, from: string, dst: Ref, to: string) {
    && src in s && from in s[src].nodes && s[src].nodes[from] in s && dst in s
    && (to in s[dst].nodes ==> s[dst].nodes[to] in s && s[dst].nodes[to] !in {src, dst, s[src].nodes[from]})
  }

  /** The target of a rename is neither what is moved nor one of the two directories, unless
      source and destination are the same entry. */
  lemma TargetIsOther(s: Vnodes, o: Owners, src: Ref, from: string, dst: Ref, to: string)
    requires Inv(s, o) && RenameProceeds(s, src, from, dst, to) && !(src == dst && from == to)
    ensures TargetApart(s, src, from, dst, to)
  {
    assert EntriesLinked(s, o, src) && EntriesLinked(s, o, dst);
    if to in s[dst].nodes { NoSelfEntry(s, o, dst, to); }
  }

  /** What Rename does: the target goes, the entry leaves src, and appears in dst. */
  function Renamed(s: Vnodes, src: Ref, from: string, dst: Ref, to: string, k: int): Vnodes
    requires TargetApart(s, src, from, dst, to)
  {
    Moved(TargetGone(s, dst, to, k), src, from, s[src].nodes[from], dst, to)
  }

  ghost function RenamedOwners(s: Vnodes, o: Owners, src: Ref, from: string, dst: Ref, to: string, k: int): Owners
    requires TargetApart(s, src, from, dst, to)
  {
    var p := TargetGoneOwners(s, o, dst, to, k);
    p.(holder := p.holder[s[src].nodes[from] := dst])
  }

  /** Rename moves one entry and removes at most the target; nothing else changes. */
  lemma RenameAtomic(s: Vnodes, o: Owners, src: Ref, from: string, dst: Ref, to: string, k: int, e: Ref, m: string)
    requires Inv(s, o) && RenameProceeds(s, src, from, dst, to) && MayRename(s, o, src, from, dst, to)
    requires TargetApart(s, src, from, dst, to) && 0 < k
    ensures var t, v := Renamed(s, src, from, dst, to, k), s[src].nodes[from];
            var target := Entry(s, dst, to);
            && Entry(t, e, m) == (if e == dst && m == to then Some(v)
                                  else if e == src && m == from then None
                                  else Entry(s, e, m))
            && t.Keys == s.Keys - (if target.Some? && o.held[target.value] < k then {target.value} else {})
            && (forall w <- t :: t[w].id == s[w].id && t[w].kind == s[w].kind && t[w].name == if w == v then to else s[w].name)
            && (forall w <- t :: t[w].refs == s[w].refs - if target == Some(w) then k else 0)
  {
    var v := s[src].nodes[from];
    var gone := TargetGone(s, dst, to, k);
    TargetGoneOnly(s, o, dst, to, k, e, m);
    NoSelfEntry(s, o, src, from);
    assert Climbs(o.holder, dst, dst, 0);
    MovedOnly(gone, src, from, v, dst, to, e, m);
  }

  /** Rename finds the vnode it moves as its own target exactly when source and destination
      are the same entry. */
  lemma RenameOntoItself(s: Vnodes, o: Owners, src: Ref, from: string, dst: Ref, to: string)
    requires Inv(s, o) && Entry(s, src, from).Some?
    ensures Entry(s, dst, to) == Entry(s, src, from) <==> src == dst && from == to
  {
    assert EntriesLinked(s, o, src);
    if Entry(s, dst, to).Some? {
      assert EntriesLinked(s, o, dst);
    }
  }

  /** What a rename that proceeds finds once it has cleared the target: the entry to be moved is
      still there exactly when it was not itself the target, and the vnode still exists exactly
      when, besides, the VFS holds it if it was. */
  lemma RenameAfterClearing(s: Vnodes, o: Owners, src: Ref, from: string, dst: Ref, to: string, k: int)
    requires Inv(s, o) && RenameProceeds(s, src, from, dst, to) && 0 < k
    ensures var t, v := TargetGone(s, dst, to, k), s[src].nodes[from];
            && (Entry(t, src, from) == Entry(s, src, from) <==> !(src == dst && from == to))
            && (Entry(t, src, from) == None <==> src == dst && from == to)
            && (v in t <==> !(src == dst && from == to) || k <= o.held[v])
  {
    TargetGoneOnly(s, o, dst, to, k, src, from);
    RenameOntoItself(s, o, src, from, dst, to);
  }

  /** Moving one of a directory's own entries into its subtree is the one way in which a rename
      that proceeds makes a cycle. */
  lemma RenameKeepsForest(s: Vnodes, o: Owners, src: Ref, from: string, dst: Ref, to: string, k: int)
    requires Inv(s, o) && RenameProceeds(s, src, from, dst, to) && !(src == dst && from == to)
    requires TargetApart(s, src, from, dst, to)
    ensures Acyclic(RenamedOwners(s, o, src, from, dst, to, k).holder) <==> MayRename(s, o, src, from, dst, to)
  {
    var v, rest := s[src].nodes[from], TargetGoneOwners(s, o, dst, to, k).holder;
    if to in s[dst].nodes {
      UnlinkKeepsForest(o.holder, s[dst].nodes[to]);
      NothingBelow(s, o, s[dst].nodes[to]);
      if n: nat :| Climbs(o.holder, dst, v, n) {
        ClimbsPast(o.holder, s[dst].nodes[to], dst, v, n);
      } else {
        SubtreeShrinks(rest, o.holder, v, dst);
      }
    }
    MoveKeepsForest(rest, v, dst);
  }

  lemma NothingBelow(s: Vnodes, o: Owners, x: Ref)
    requires Inv(s, o) && x in s && s[x].nodes == map[]
    ensures x !in o.holder.Values
  {
    forall c | c in o.holder ensures o.holder[c] != x {
      assert LinkIsEntry(s, o, c);
    }
  }

  /** The way up from d does not lead through a vnode that has nothing below it. */
  lemma {:induction false} ClimbsPast(holder: map<Ref, Ref>, x: Ref, d: Ref, v: Ref, n: nat)
    requires Climbs(holder, d, v, n) && d != x && x !in holder.Values
    ensures Climbs(holder - {x}, d, v, n)
    decreases n
  {
    if n > 0 {
      assert holder[d] in holder.Values;
      ClimbsPast(holder, x, holder[d], v, n - 1);
    }
  }

  // ---------- whole runs ----------

  datatype World = World(s: Vnodes, o: Owners)

  // The changes that the operations are made of.
  datatype Change =
    | Acquire(v: Ref)                     // GetVnode
    | GiveBack(v: Ref)                    // ReleaseReference
    | Detach(d: Ref, n: string)           // fNodes.Remove
    | Attach(d: Ref, v: Ref)              // fNodes.Insert
    | Delete(v: Ref)                      // the end of a destructor
    | New(v: Ref, vnode: Vnode)           // operator new
    | Relabel(v: Ref, vnode: Vnode)       // SetName, and the id from RegisterVnode
    | TakeRoot(v: Ref)                    // fRootVnode.SetTo
    | DropRoot                            // fRootVnode.Unset

  /** What must hold for the change to be made. */
  ghost predicate Enabled(w: World, c: Change) {
    match c
    case Acquire(v) => v in w.s && v !in w.o.dying
    case GiveBack(v) => Held(w.o, v) && v in w.s
    case Detach(d, n) => d in w.s && n in w.s[d].nodes && w.s[d].nodes[n] in w.s
    case Attach(d, v) => CanAttach(w.s, w.o, d, v)
    case Delete(v) => v in w.o.dying && v in w.s && w.s[v].nodes == map[]
    case New(v, vnode) => v !in w.s && vnode.refs == 1 && vnode.nodes == map[]
    case Relabel(v, vnode) => v in w.s && vnode == w.s[v].(id := vnode.id, name := vnode.name)
                              && (v in w.o.holder ==> vnode.name == w.s[v].name)
    case TakeRoot(v) => w.o.root.None? && Held(w.o, v) && v in w.s && w.s[v].kind == Directory && v !in w.o.holder
    case DropRoot => w.o.root.Some?
  }

  ghost function After(w: World, c: Change): World
    requires Enabled(w, c)
  {
    var World(s, o) := w;
    match c
    case Acquire(v) => World(WithRefs(s, v, s[v].refs + 1), o.(held := o.held + multiset{v}))
    case GiveBack(v) =>
      World(WithRefs(s, v, s[v].refs - 1),
            o.(held := o.held - multiset{v}, dying := if s[v].refs == 1 then o.dying + {v} else o.dying))
    case Detach(d, n) =>
      World(WithNodes(s, d, s[d].nodes - {n}),
            o.(holder := o.holder - {s[d].nodes[n]}, held := o.held + multiset{s[d].nodes[n]}))
    case Attach(d, v) => World(Attached(s, d, v), AttachedOwners(o, d, v))
    case Delete(v) => World(s - {v}, o.(dying := o.dying - {v}))
    case New(v, vnode) => World(s[v := vnode], o.(held := o.held + multiset{v}))
    case Relabel(v, vnode) => World(s[v := vnode], o)
    case TakeRoot(v) => World(s, o.(root := Some(v), held := o.held - multiset{v}))
    case DropRoot => World(s, o.(root := None, held := o.held + multiset{o.root.value}))
  }

  lemma ChangeKeeps(w: World, c: Change)
    requires Inv(w.s, w.o) && Enabled(w, c)
    ensures Inv(After(w, c).s, After(w, c).o)
  {
    var World(s, o) := w;
    match c {
      case Acquire(v) => AcquireKeeps(s, o, v);
      case GiveBack(v) => GiveBackKeeps(s, o, v);
      case Detach(d, n) => DetachKeeps(s, o, d, n);
      case Attach(d, v) => AttachKeeps(s, o, d, v);
      case Delete(v) => DeleteKeeps(s, o, v);
      case New(v, vnode) => NewKeeps(s, o, v, vnode);
      case Relabel(v, vnode) => RelabelKeeps(s, o, v, vnode);
      case TakeRoot(v) => RootKeeps(s, o, After(w, c).o);
      case DropRoot => RootKeeps(s, o, After(w, c).o);
    }
  }

  /** Each of the changes is possible when its turn comes. */
  ghost predicate Possible(w: World, run: seq<Change>)
    decreases |run|
  {
    run != [] ==> Enabled(w, run[0]) && Possible(After(w, run[0]), run[1..])
  }

  ghost function AfterAll(w: World, run: seq<Change>): World
    requires Possible(w, run)
    decreases |run|
  {
    if run == [] then w else AfterAll(After(w, run[0]), run[1..])
  }

  lemma {:induction false} RunKeeps(w: World, run: seq<Change>)
    requires Inv(w.s, w.o) && Possible(w, run)
    ensures Inv(AfterAll(w, run).s, AfterAll(w, run).o)
    decreases |run|
  {
    if run != [] {
      ChangeKeeps(w, run[0]);
      RunKeeps(After(w, run[0]), run[1..]);
    }
  }

  ghost function Nothing(): World {
    World(map[], Owners(map[], multiset{}, None, {}))
  }

  /** After any run at all: a vnode's count is its link plus the root reference plus what was
      taken and not given back, no two directories list it, climbing from it leads to
      something that keeps it, and when nothing keeps anything no vnode is left. */
  lemma RunTheorem(run: seq<Change>)
    requires Possible(Nothing(), run)
    ensures var World(s, o) := AfterAll(Nothing(), run);
            && (forall v <- s :: s[v].refs == B2N(v in o.holder) + B2N(o.root == Some(v)) + o.held[v]
                              && (s[v].refs == 0 <==> v in o.dying) && Anchored(o, o.holder, v))
            && (forall d, e, n, m :: Entry(s, d, n).Some? && Entry(s, d, n) == Entry(s, e, m) ==> d == e && n == m)
            && Acyclic(o.holder)
            && (o.root == None && o.held == multiset{} && o.dying == {} ==> s == map[])
  {
    assert forall S: set<Ref> :: !Closed(Nothing().o.holder, S);
    RunKeeps(Nothing(), run);
    var World(s, o) := AfterAll(Nothing(), run);
    forall v | v in s ensures Counted(s, o, v) && Anchored(o, o.holder, v) { NoLeak(s, o, v); }
    forall d, e, n, m | Entry(s, d, n).Some? && Entry(s, d, n) == Entry(s, e, m) ensures d == e && n == m {
      RenameOntoItself(s, o, d, n, e, m);
    }
    if o.root == None && o.held == multiset{} && o.dying == {} { NothingLeft(s, o); }
  }
}
