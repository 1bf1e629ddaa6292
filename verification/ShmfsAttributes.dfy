/** The attributes of the vnodes: their name trees, their reference counts, and the cursors
    that list them while they come and go. Attributes and cursors are named by handles. */
module ShmfsAttributes {
  import opened Basics
  import opened Names
  import opened Listing
  import Namespace

  type Ref = Namespace.Ref

  datatype AttrRef = AttrRef(n: int)
  datatype Cookie = Cookie(n: int)

  datatype Attr = Attr(name: string, refs: int)
  // `attr` is the attribute the cursor stands on, of those of `vnode`.
  datatype Cursor = Cursor(vnode: Ref, attr: Option<AttrRef>)

  type Attrs = map<AttrRef, Attr>
  type Trees = map<Ref, map<string, AttrRef>>
  type Cursors = map<Cookie, Cursor>

  // Which vnode each linked attribute belongs to, the references given out as attribute
  // cookies, and what each open cursor has done since it was rewound.
  datatype Owners = Owners(owner: map<AttrRef, Ref>, held: multiset<AttrRef>, scans: map<Cookie, Scan>)

  datatype Status = OK | EntryNotFound | FileExists | BufferOverflow

  // ---------- invariants ----------

  ghost predicate Counted(s: Attrs, o: Owners, a: AttrRef)
    requires a in s
  {
    s[a].refs > 0 && s[a].refs == o.held[a] + if a in o.owner then 1 else 0
  }

  ghost predicate EntryOk(s: Attrs, t: Trees, o: Owners, v: Ref, n: string)
    requires v in t && n in t[v]
  {
    var a := t[v][n];
    a in s && s[a].name == n && a in o.owner && o.owner[a] == v
  }

  ghost predicate OwnedOk(s: Attrs, t: Trees, o: Owners, a: AttrRef)
    requires a in o.owner
  {
    var v := o.owner[a];
    a in s && v in t && s[a].name in t[v] && t[v][s[a].name] == a
  }

  ghost predicate Held(o: Owners, a: AttrRef) { a in o.held }

  ghost predicate AttrsOk(s: Attrs, t: Trees, o: Owners) {
    && (forall a {:trigger Counted(s, o, a)} :: a in s ==> Counted(s, o, a))
    && (forall v, n {:trigger EntryOk(s, t, o, v, n)} :: v in t && n in t[v] ==> EntryOk(s, t, o, v, n))
    && (forall a {:trigger OwnedOk(s, t, o, a)} :: a in o.owner ==> OwnedOk(s, t, o, a))
    && (forall a {:trigger Held(o, a)} :: Held(o, a) ==> a in s)
  }

  /** A cursor stands on an attribute of its vnode or at the end, and its scan is in order. */
  ghost predicate CursorOk(s: Attrs, t: Trees, c: Cursors, o: Owners, k: Cookie)
    requires k in c
  {
    && k in o.scans && c[k].vnode in t
    && (c[k].attr.None? ==> o.scans[k].at.None?)
    && (c[k].attr.Some? ==> var a := c[k].attr.value;
          a in s && a in o.owner && o.owner[a] == c[k].vnode && o.scans[k].at == Some(s[a].name))
    && ScanOk(t[c[k].vnode].Keys, o.scans[k])
  }

  ghost predicate CursorsOk(s: Attrs, t: Trees, c: Cursors, o: Owners) {
    && o.scans.Keys == c.Keys
    && forall k {:trigger CursorOk(s, t, c, o, k)} :: k in c ==> CursorOk(s, t, c, o, k)
  }

  /** No attribute but a has come, gone or changed. */
  ghost predicate OthersSame(s: Attrs, t: Attrs, a: AttrRef) {
    forall b :: b != a ==> (b in s <==> b in t) && (b in s && b in t ==> t[b] == s[b])
  }

  /** No attribute has come, and none but a has another name. */
  ghost predicate NamesKept(s: Attrs, t: Attrs, a: Option<AttrRef>) {
    forall b :: b in t && a != Some(b) ==> b in s && t[b].name == s[b].name
  }

  predicate Given(n: int, next: int) { n < next }

  ghost predicate AllGiven(s: Attrs, c: Cursors, next: int) {
    && (forall a {:trigger Given(a.n, next)} :: a in s ==> Given(a.n, next))
    && (forall k {:trigger Given(k.n, next)} :: k in c ==> Given(k.n, next))
  }

  lemma OneMoreGiven(s: Attrs, c: Cursors, next: int, a: AttrRef, attr: Attr)
    requires AllGiven(s, c, next) && a.n == next
    ensures AllGiven(s[a := attr], c, next + 1)
  {
    forall b | b in s ensures Given(b.n, next + 1) { assert Given(b.n, next); }
    forall k | k in c ensures Given(k.n, next + 1) { assert Given(k.n, next); }
  }

  lemma OneMoreCursor(s: Attrs, c: Cursors, next: int, k: Cookie, cursor: Cursor)
    requires AllGiven(s, c, next) && k.n == next
    ensures AllGiven(s, c[k := cursor], next + 1)
  {
    forall b | b in s ensures Given(b.n, next + 1) { assert Given(b.n, next); }
    forall j | j in c ensures Given(j.n, next + 1) { assert Given(j.n, next); }
  }

  /** The attribute that the tree finds under a name. */
  function Under(tree: map<string, AttrRef>, n: Option<string>): (a: Option<AttrRef>)
    ensures a.Some? <==> n.Some? && n.value in tree
    ensures a.Some? ==> tree[n.value] == a.value
  {
    if n.Some? && n.value in tree then Some(tree[n.value]) else None
  }

  /** The cursors after those of v that stood on a have gone on to `next`. */
  function Moved(c: Cursors, v: Ref, a: AttrRef, next: Option<AttrRef>, done: set<Cookie>): Cursors {
    map k | k in c :: if k in done && c[k] == Cursor(v, Some(a)) then Cursor(v, next) else c[k]
  }

  /** The same cursors, each still on its vnode. */
  ghost predicate SameVnodes(c: Cursors, d: Cursors) {
    c.Keys == d.Keys && forall k <- c :: d[k].vnode == c[k].vnode
  }

  /** ... and those of other vnodes than v where they stood. */
  ghost predicate OthersStay(c: Cursors, d: Cursors, v: Ref) {
    c.Keys == d.Keys && forall k <- c :: c[k].vnode != v ==> d[k] == c[k]
  }

  /** The scans after the attribute n of v is gone. */
  ghost function ScansSkipped(c: Cursors, scans: map<Cookie, Scan>, names: set<string>, v: Ref, n: string): map<Cookie, Scan> {
    map k | k in scans :: if k in c && c[k].vnode == v then Skipped(names, scans[k], n) else scans[k]
  }

  /** The scans after whatever v had under n is gone. */
  ghost function ScansWithout(c: Cursors, scans: map<Cookie, Scan>, t: Trees, v: Ref, n: string): map<Cookie, Scan>
    requires v in t
  {
    if n in t[v] then ScansSkipped(c, scans, t[v].Keys, v, n) else scans
  }

  lemma SameSkips(c: Cursors, d: Cursors, scans: map<Cookie, Scan>, names: set<string>, v: Ref, n: string)
    requires SameVnodes(c, d)
    ensures ScansSkipped(c, scans, names, v, n) == ScansSkipped(d, scans, names, v, n)
  {
  }

  /** RenameAttr finds the attribute it moves as its own target exactly when source and
      destination are the same; then, and only then, clearing the target takes it away. */
  lemma RenameAttrOntoItself(s: Attrs, t: Trees, o: Owners, v: Ref, from: string, w: Ref, to: string)
    requires AttrsOk(s, t, o) && v in t && w in t && from in t[v]
    ensures to in t[w] && t[w][to] == t[v][from] <==> v == w && from == to
    ensures var cleared := t[w := t[w] - {to}];
            && (from in cleared[v] <==> !(v == w && from == to))
            && (from in cleared[v] ==> cleared[v][from] == t[v][from])
  {
    assert EntryOk(s, t, o, v, from);
    assert to in t[w] ==> EntryOk(s, t, o, w, to);
  }

  // ---------- what each step keeps ----------

  lemma UnlinkKeepsAttrs(s: Attrs, t: Trees, o: Owners, v: Ref, a: AttrRef, scans: map<Cookie, Scan>)
    requires AttrsOk(s, t, o) && a in o.owner && o.owner[a] == v
    ensures a in s && v in t
    ensures AttrsOk(s, t[v := t[v] - {s[a].name}], Owners(o.owner - {a}, o.held + multiset{a}, scans))
  {
    assert OwnedOk(s, t, o, a);
    var t', o' := t[v := t[v] - {s[a].name}], Owners(o.owner - {a}, o.held + multiset{a}, scans);
    forall b | b in s ensures Counted(s, o', b) { assert Counted(s, o, b); }
    forall w, n | w in t' && n in t'[w] ensures EntryOk(s, t', o', w, n) {
      assert EntryOk(s, t, o, w, n);
    }
    forall b | b in o'.owner ensures OwnedOk(s, t', o', b) { assert OwnedOk(s, t, o, b); }
    forall b | Held(o', b) ensures b in s { assert Held(o, b) || b == a; }
  }

  lemma UnlinkKeepsCursors(s: Attrs, t: Trees, c: Cursors, o: Owners, v: Ref, a: AttrRef, next: Option<AttrRef>)
    requires AttrsOk(s, t, o) && CursorsOk(s, t, c, o) && a in o.owner && o.owner[a] == v && a in s && v in t
    requires next == Under(t[v], Next(t[v].Keys, s[a].name))
    ensures CursorsOk(s, t[v := t[v] - {s[a].name}], Moved(c, v, a, next, c.Keys),
                      Owners(o.owner - {a}, o.held + multiset{a}, ScansSkipped(c, o.scans, t[v].Keys, v, s[a].name)))
  {
    var name := s[a].name;
    var t', c' := t[v := t[v] - {name}], Moved(c, v, a, next, c.Keys);
    var o' := Owners(o.owner - {a}, o.held + multiset{a}, ScansSkipped(c, o.scans, t[v].Keys, v, name));
    assert OwnedOk(s, t, o, a);
    forall k | k in c' ensures CursorOk(s, t', c', o', k) {
      CursorUnlinked(s, t, c, o, v, a, next, k);
    }
  }

  lemma CursorUnlinked(s: Attrs, t: Trees, c: Cursors, o: Owners, v: Ref, a: AttrRef, next: Option<AttrRef>, k: Cookie)
    requires AttrsOk(s, t, o) && CursorsOk(s, t, c, o) && a in o.owner && o.owner[a] == v && a in s && v in t && k in c
    requires next == Under(t[v], Next(t[v].Keys, s[a].name))
    ensures CursorOk(s, t[v := t[v] - {s[a].name}], Moved(c, v, a, next, c.Keys),
                     Owners(o.owner - {a}, o.held + multiset{a}, ScansSkipped(c, o.scans, t[v].Keys, v, s[a].name)), k)
  {
    var name := s[a].name;
    assert CursorOk(s, t, c, o, k) && OwnedOk(s, t, o, a);
    if c[k].vnode == v {
      SkippedOk(t[v].Keys, o.scans[k], name);
      assert t[v].Keys - {name} == (t[v] - {name}).Keys;
      if c[k].attr == Some(a) {
        var m := Next(t[v].Keys, name);
        if m.Some? {
          LessIrreflexive(name);
          assert EntryOk(s, t, o, v, m.value);
        }
      } else if c[k].attr.Some? {
        assert OwnedOk(s, t, o, c[k].attr.value);
      }
    }
  }

  /** An attribute that is in no tree enters one under its name; the owed reference is the tree's now. */
  lemma LinkKeeps(s: Attrs, t: Trees, c: Cursors, o: Owners, w: Ref, a: AttrRef)
    requires AttrsOk(s, t, o) && CursorsOk(s, t, c, o)
    requires a in s && Held(o, a) && a !in o.owner && w in t && s[a].name !in t[w]
    ensures var t', o' := t[w := t[w][s[a].name := a]], o.(owner := o.owner[a := w], held := o.held - multiset{a});
            AttrsOk(s, t', o') && CursorsOk(s, t', c, o')
  {
    var t', o' := t[w := t[w][s[a].name := a]], o.(owner := o.owner[a := w], held := o.held - multiset{a});
    forall b | b in s ensures Counted(s, o', b) { assert Counted(s, o, b); }
    forall v, n | v in t' && n in t'[v] ensures EntryOk(s, t', o', v, n) {
      assert (v == w && n == s[a].name) || EntryOk(s, t, o, v, n);
    }
    forall b | b in o'.owner ensures OwnedOk(s, t', o', b) { assert b == a || OwnedOk(s, t, o, b); }
    forall b | Held(o', b) ensures b in s { assert Held(o, b); }
    forall k | k in c ensures CursorOk(s, t', c, o', k) {
      assert CursorOk(s, t, c, o, k);
      if c[k].vnode == w {
        InsertedOk(t[w].Keys, o.scans[k], s[a].name);
        assert t[w].Keys + {s[a].name} == t'[w].Keys;
      }
    }
  }

  /** The record of an attribute may change its count along with what is owed, and while it is
      in no tree its name. */
  lemma RecordKeeps(s: Attrs, t: Trees, c: Cursors, o: Owners, a: AttrRef, attr: Attr, held: multiset<AttrRef>)
    requires AttrsOk(s, t, o) && CursorsOk(s, t, c, o) && a in s && attr.refs > 0
    requires a in o.owner ==> attr.name == s[a].name
    requires attr.refs + o.held[a] == s[a].refs + held[a] && forall b :: b != a ==> held[b] == o.held[b]
    ensures AttrsOk(s[a := attr], t, o.(held := held)) && CursorsOk(s[a := attr], t, c, o.(held := held))
  {
    var s', o' := s[a := attr], o.(held := held);
    forall b | b in s' ensures Counted(s', o', b) { assert Counted(s, o, b); }
    forall v, n | v in t && n in t[v] ensures EntryOk(s', t, o', v, n) { assert EntryOk(s, t, o, v, n); }
    forall b | b in o.owner ensures OwnedOk(s', t, o', b) { assert OwnedOk(s, t, o, b); }
    forall b | Held(o', b) ensures b in s' { assert Held(o, b) || b == a; }
    forall k | k in c ensures CursorOk(s', t, c, o', k) { assert CursorOk(s, t, c, o, k); }
  }

  /** The last reference is given back: the attribute is gone. */
  lemma DeleteKeeps(s: Attrs, t: Trees, c: Cursors, o: Owners, a: AttrRef)
    requires AttrsOk(s, t, o) && CursorsOk(s, t, c, o) && a in s && s[a].refs == 1 && Held(o, a)
    ensures AttrsOk(s - {a}, t, o.(held := o.held - multiset{a})) && CursorsOk(s - {a}, t, c, o.(held := o.held - multiset{a}))
  {
    var s', o' := s - {a}, o.(held := o.held - multiset{a});
    assert Counted(s, o, a);
    forall b | b in s' ensures Counted(s', o', b) { assert Counted(s, o, b); }
    forall v, n | v in t && n in t[v] ensures EntryOk(s', t, o', v, n) { assert EntryOk(s, t, o, v, n); }
    forall b | b in o.owner ensures OwnedOk(s', t, o', b) { assert OwnedOk(s, t, o, b); }
    forall b | Held(o', b) ensures b in s' { assert Held(o, b); }
    forall k | k in c ensures CursorOk(s', t, c, o', k) { assert CursorOk(s, t, c, o, k); }
  }

  /** A new attribute, in no tree, with one reference that its creator has. */
  lemma NewKeeps(s: Attrs, t: Trees, c: Cursors, o: Owners, a: AttrRef, name: string)
    requires AttrsOk(s, t, o) && CursorsOk(s, t, c, o) && a !in s
    ensures var s', o' := s[a := Attr(name, 1)], o.(held := o.held + multiset{a});
            AttrsOk(s', t, o') && CursorsOk(s', t, c, o') && a !in o.owner
  {
    var s', o' := s[a := Attr(name, 1)], o.(held := o.held + multiset{a});
    assert !Held(o, a);
    forall b | b in o.owner ensures b != a && OwnedOk(s', t, o', b) { assert OwnedOk(s, t, o, b); }
    forall b | b in s' ensures Counted(s', o', b) { if b != a { assert Counted(s, o, b); } }
    forall v, n | v in t && n in t[v] ensures EntryOk(s', t, o', v, n) { assert EntryOk(s, t, o, v, n); }
    forall b | Held(o', b) ensures b in s' { assert Held(o, b) || b == a; }
    forall k | k in c ensures CursorOk(s', t, c, o', k) { assert CursorOk(s, t, c, o, k); }
  }

  class AttributeSpace {
    var attrs: Attrs
    var fAttrs: Trees
    var cursors: Cursors
    var nextHandle: int
    const direntHeader: nat
    ghost var own: Owners

    ghost predicate Valid()
      reads this
    {
      && AttrsOk(attrs, fAttrs, own)
      && CursorsOk(attrs, fAttrs, cursors, own)
      && AllGiven(attrs, cursors, nextHandle)
    }

    constructor (direntHeader: nat)
      ensures Valid() && attrs == map[] && fAttrs == map[] && cursors == map[]
    {
      attrs, fAttrs, cursors, nextHandle := map[], map[], map[], 0;
      this.direntHeader := direntHeader;
      own := Owners(map[], multiset{}, map[]);
    }

    /** fAttrs.LeftMost and fAttrs.Next: the first name after `after`, or the first of all. */
    method FindFirst(v: Ref, after: Option<string>) returns (a: Option<AttrRef>)
      requires v in fAttrs
      ensures a == Under(fAttrs[v], if after.None? then First(fAttrs[v].Keys) else Next(fAttrs[v].Keys, after.value))
    {
      var tree := fAttrs[v];
      ghost var names := if after.None? then tree.Keys else Above(tree.Keys, after.value);
      var best: Option<string> := None;
      var rest := tree.Keys;
      while rest != {}
        invariant rest <= tree.Keys
        invariant best.Some? ==> best.value in names
        invariant forall n :: n in names && n !in rest ==> best.Some? && (n == best.value || Less(best.value, n))
        decreases rest
      {
        var n :| n in rest;
        if (after.None? || Less(after.value, n)) && (best.None? || Less(n, best.value)) {
          if best.Some? { LessChain(names, rest, n, best.value); }
          best := Some(n);
        } else if best.Some? {
          LessTotal(n, best.value);
        }
        rest := rest - {n};
      }
      if best.Some? { FirstUnique(names, best.value); }
      a := Under(tree, best);
    }

    lemma LessChain(names: set<string>, rest: set<string>, n: string, best: string)
      requires Less(n, best)
      requires forall m :: m in names && m !in rest ==> m == best || Less(best, m)
      ensures forall m :: m in names && m !in rest ==> Less(n, m)
    {
      forall m | m in names && m !in rest ensures Less(n, m) {
        if m != best { LessTransitive(n, best, m); }
      }
    }

    /** RemoveAttr(attr): every cursor that stands on the attribute goes on to the next one, and
        the attribute leaves its tree. The reference the tree had is now owed. */
    method UnlinkAttr(v: Ref, a: AttrRef)
      requires Valid() && a in own.owner && own.owner[a] == v
      modifies this
      ensures Valid() && v in old(fAttrs) && a in old(attrs)
      ensures attrs == old(attrs) && nextHandle == old(nextHandle)
      ensures fAttrs == old(fAttrs)[v := old(fAttrs)[v] - {old(attrs)[a].name}]
      ensures SameVnodes(old(cursors), cursors) && OthersStay(old(cursors), cursors, v)
      ensures forall j <- cursors :: cursors[j] == if old(cursors)[j] != Cursor(v, Some(a)) then old(cursors)[j]
                else Cursor(v, Under(old(fAttrs)[v], Next(old(fAttrs)[v].Keys, old(attrs)[a].name)))
      ensures own == Owners(old(own).owner - {a}, old(own).held + multiset{a},
                            ScansSkipped(old(cursors), old(own).scans, old(fAttrs)[v].Keys, v, old(attrs)[a].name))
    {
      assert OwnedOk(attrs, fAttrs, own, a);
      ghost var s, t, c, o := attrs, fAttrs, cursors, own;
      var name := attrs[a].name;
      var next := FindFirst(v, Some(name));
      AdvanceCursors(v, a, next);
      fAttrs := fAttrs[v := fAttrs[v] - {name}];
      own := Owners(own.owner - {a}, own.held + multiset{a}, ScansSkipped(c, own.scans, t[v].Keys, v, name));
      UnlinkKeepsAttrs(s, t, o, v, a, own.scans);
      UnlinkKeepsCursors(s, t, c, o, v, a, next);
    }

    /** The loop of RemoveAttr over the cursors of v. */
    method AdvanceCursors(v: Ref, a: AttrRef, next: Option<AttrRef>)
      modifies `cursors
      ensures cursors == Moved(old(cursors), v, a, next, old(cursors).Keys)
    {
      ghost var c := cursors;
      var rest := cursors.Keys;
      assert cursors == Moved(c, v, a, next, {});
      while rest != {}
        invariant rest <= c.Keys && cursors == Moved(c, v, a, next, c.Keys - rest)
        decreases rest
      {
        var k :| k in rest;
        if cursors[k] == Cursor(v, Some(a)) {
          cursors := cursors[k := Cursor(v, next)];
        }
        rest := rest - {k};
        assert cursors == Moved(c, v, a, next, c.Keys - rest);
      }
      assert c.Keys - rest == c.Keys;
    }

    /** ReleaseReference on a reference that is owed. */
    method ReleaseReference(a: AttrRef)
      requires Valid() && Held(own, a)
      modifies `attrs, `own
      ensures Valid() && a in old(attrs) && own == old(own).(held := old(own).held - multiset{a})
      ensures attrs == if old(attrs)[a].refs == 1 then old(attrs) - {a}
                       else old(attrs)[a := Attr(old(attrs)[a].name, old(attrs)[a].refs - 1)]
    {
      ghost var s := attrs;
      assert Counted(s, own, a);
      if attrs[a].refs == 1 {
        DeleteKeeps(attrs, fAttrs, cursors, own, a);
        attrs := attrs - {a};
      } else {
        RecordKeeps(attrs, fAttrs, cursors, own, a, Attr(attrs[a].name, attrs[a].refs - 1), own.held - multiset{a});
        attrs := attrs[a := Attr(attrs[a].name, attrs[a].refs - 1)];
      }
      own := own.(held := own.held - multiset{a});
      assert forall b :: b in attrs ==> b in s;
    }

    method AcquireReference(a: AttrRef)
      requires Valid() && a in attrs
      modifies `attrs, `own
      ensures Valid() && own == old(own).(held := old(own).held + multiset{a})
      ensures attrs == old(attrs)[a := Attr(old(attrs)[a].name, old(attrs)[a].refs + 1)]
    {
      assert Counted(attrs, own, a);
      RecordKeeps(attrs, fAttrs, cursors, own, a, Attr(attrs[a].name, attrs[a].refs + 1), own.held + multiset{a});
      attrs := attrs[a := Attr(attrs[a].name, attrs[a].refs + 1)];
      own := own.(held := own.held + multiset{a});
    }

    method NewAttribute(name: string) returns (a: AttrRef)
      requires Valid()
      modifies `attrs, `nextHandle, `own
      ensures Valid() && a !in old(attrs) && a !in own.owner
      ensures attrs == old(attrs)[a := Attr(name, 1)] && own == old(own).(held := old(own).held + multiset{a})
    {
      a := AttrRef(nextHandle);
      assert !Given(a.n, nextHandle);
      NewKeeps(attrs, fAttrs, cursors, own, a, name);
      attrs := attrs[a := Attr(name, 1)];
      own := own.(held := own.held + multiset{a});
      OneMoreGiven(old(attrs), cursors, nextHandle, a, Attr(name, 1));
      nextHandle := nextHandle + 1;
    }

    /** fAttrs.Insert, for an attribute that is in no tree. */
    method LinkAttr(w: Ref, a: AttrRef)
      requires Valid() && a in attrs && Held(own, a) && a !in own.owner && w in fAttrs && attrs[a].name !in fAttrs[w]
      modifies `fAttrs, `own
      ensures Valid() && fAttrs == old(fAttrs)[w := old(fAttrs)[w][attrs[a].name := a]]
      ensures own == old(own).(owner := old(own).owner[a := w], held := old(own).held - multiset{a})
    {
      LinkKeeps(attrs, fAttrs, cursors, own, w, a);
      fAttrs := fAttrs[w := fAttrs[w][attrs[a].name := a]];
      own := own.(owner := own.owner[a := w], held := own.held - multiset{a});
    }

    // ---------- attribute calls ----------

    method CreateAttr(v: Ref, name: string, excl: bool) returns (st: Status, a: AttrRef)
      requires Valid() && v in fAttrs
      modifies `attrs, `fAttrs, `nextHandle, `own
      ensures Valid() && cursors == old(cursors) && own.scans == old(own.scans)
      ensures st == FileExists <==> name in old(fAttrs)[v] && excl
      ensures st == OK || (st == FileExists && attrs == old(attrs) && fAttrs == old(fAttrs) && own == old(own))
      ensures st == OK ==> a in attrs && attrs[a].name == name && own.held == old(own.held) + multiset{a}
      ensures st == OK && name in old(fAttrs)[v] ==> a == old(fAttrs)[v][name] && fAttrs == old(fAttrs)
      ensures st == OK ==> OthersSame(old(attrs), attrs, a)
      ensures st == OK && name !in old(fAttrs)[v] ==> a !in old(attrs) && fAttrs == old(fAttrs)[v := old(fAttrs)[v][name := a]]
    {
      if name in fAttrs[v] {
        a := fAttrs[v][name];
        if excl {
          return FileExists, a;
        }
        assert EntryOk(attrs, fAttrs, own, v, name);
        AcquireReference(a);
        return OK, a;
      }
      a := NewAttribute(name);
      AcquireReference(a);
      LinkAttr(v, a);
      assert own.held == old(own.held) + multiset{a};
      st := OK;
    }

    method OpenAttr(v: Ref, name: string) returns (st: Status, a: AttrRef)
      requires Valid() && v in fAttrs
      modifies `attrs, `own
      ensures Valid()
      ensures st == OK <==> name in fAttrs[v]
      ensures st == OK ==> a == fAttrs[v][name] && own.held == old(own.held) + multiset{a}
      ensures st == OK ==> OthersSame(old(attrs), attrs, a) && own.scans == old(own.scans)
      ensures st != OK ==> st == EntryNotFound && attrs == old(attrs) && own == old(own)
    {
      if name !in fAttrs[v] {
        return EntryNotFound, AttrRef(0);
      }
      a := fAttrs[v][name];
      assert EntryOk(attrs, fAttrs, own, v, name);
      AcquireReference(a);
      st := OK;
    }

    /** The attribute goes with the last reference, and not before. */
    method FreeAttrCookie(a: AttrRef)
      requires Valid() && Held(own, a)
      modifies `attrs, `own
      ensures Valid() && own == old(own).(held := old(own).held - multiset{a})
      ensures a in attrs <==> Held(own, a) || a in own.owner
      ensures OthersSame(old(attrs), attrs, a)
    {
      assert Counted(attrs, own, a);
      ReleaseReference(a);
    }

    method RemoveAttr(v: Ref, name: string) returns (st: Status)
      requires Valid() && v in fAttrs
      modifies this
      ensures Valid() && SameVnodes(old(cursors), cursors) && OthersStay(old(cursors), cursors, v)
      ensures st == OK <==> name in old(fAttrs)[v]
      ensures st != OK ==> st == EntryNotFound && attrs == old(attrs) && fAttrs == old(fAttrs) && cursors == old(cursors) && own == old(own)
      ensures st == OK ==> fAttrs == old(fAttrs)[v := old(fAttrs)[v] - {name}]
      ensures st == OK ==> forall j <- cursors ::
                cursors[j] == if old(cursors)[j] != Cursor(v, Some(old(fAttrs)[v][name])) then old(cursors)[j]
                              else Cursor(v, Under(old(fAttrs)[v], Next(old(fAttrs)[v].Keys, name)))
      ensures st == OK ==> own == Owners(old(own).owner - {old(fAttrs)[v][name]}, old(own).held,
                                         ScansSkipped(old(cursors), old(own).scans, old(fAttrs)[v].Keys, v, name))
      ensures NamesKept(old(attrs), attrs, None)
    {
      if name !in fAttrs[v] {
        return EntryNotFound;
      }
      var a := fAttrs[v][name];
      assert EntryOk(attrs, fAttrs, own, v, name);
      UnlinkAttr(v, a);
      ReleaseReference(a);
      assert own.held == old(own).held;
      st := OK;
    }

    /** The same attribute is found under the new name in the other vnode, what was there is
        gone, and the cursors of both vnodes have gone on from what they lost. A caller must
        not rename an attribute that is there to itself. */
    method RenameAttr(v: Ref, from: string, w: Ref, to: string) returns (st: Status)
      requires Valid() && v in fAttrs && w in fAttrs
      requires from in fAttrs[v] ==> !(v == w && from == to)
      modifies this
      ensures Valid() && SameVnodes(old(cursors), cursors)
      ensures st == OK <==> from in old(fAttrs)[v]
      ensures st != OK ==> st == EntryNotFound && attrs == old(attrs) && fAttrs == old(fAttrs) && cursors == old(cursors) && own == old(own)
      ensures st == OK ==> var gone := old(fAttrs)[w := old(fAttrs)[w] - {to}];
                && v in gone && w in gone[v := gone[v] - {from}]
                && fAttrs == (var rest := gone[v := gone[v] - {from}]; rest[w := rest[w][to := old(fAttrs)[v][from]]])
                && own.scans == ScansSkipped(old(cursors), ScansWithout(old(cursors), old(own).scans, old(fAttrs), w, to), gone[v].Keys, v, from)
      ensures st == OK ==> own.held == old(own.held) && NamesKept(old(attrs), attrs, Some(old(fAttrs)[v][from]))
    {
      if from !in fAttrs[v] {
        return EntryNotFound;
      }
      ghost var c := cursors;
      var a := fAttrs[v][from];
      assert EntryOk(attrs, fAttrs, own, v, from);
      ClearName(w, to);
      assert EntryOk(attrs, fAttrs, own, v, from);
      SameSkips(c, cursors, own.scans, fAttrs[v].Keys, v, from);
      MoveAttr(v, a, w, to);
      st := OK;
    }

    /** RenameAttr, first half: what the destination has under the name is removed. */
    method ClearName(w: Ref, to: string)
      requires Valid() && w in fAttrs
      modifies this
      ensures Valid() && SameVnodes(old(cursors), cursors)
      ensures fAttrs == old(fAttrs)[w := old(fAttrs)[w] - {to}]
      ensures own.held == old(own.held)
      ensures own.scans == ScansWithout(old(cursors), old(own).scans, old(fAttrs), w, to)
      ensures NamesKept(old(attrs), attrs, None)
    {
      if to in fAttrs[w] {
        var st := RemoveAttr(w, to);
      } else {
        assert fAttrs[w] - {to} == fAttrs[w];
      }
    }

    /** RenameAttr, second half. */
    method MoveAttr(v: Ref, a: AttrRef, w: Ref, to: string)
      requires Valid() && v in fAttrs && w in fAttrs && to !in fAttrs[w]
      requires a in attrs && attrs[a].name in fAttrs[v] && fAttrs[v][attrs[a].name] == a
      modifies this
      ensures Valid() && SameVnodes(old(cursors), cursors) && a in old(attrs)
      ensures var rest := old(fAttrs)[v := old(fAttrs)[v] - {old(attrs)[a].name}];
              fAttrs == rest[w := rest[w][to := a]]
      ensures own.held == old(own.held)
      ensures own.scans == ScansSkipped(old(cursors), old(own).scans, old(fAttrs)[v].Keys, v, old(attrs)[a].name)
      ensures NamesKept(old(attrs), attrs, Some(a))
    {
      assert EntryOk(attrs, fAttrs, own, v, attrs[a].name);
      UnlinkAttr(v, a);
      SetName(a, to);
      LinkAttr(w, a);
      assert own.held == old(own).held;
    }

    method SetName(a: AttrRef, name: string)
      requires Valid() && a in attrs && a !in own.owner
      modifies `attrs
      ensures Valid() && attrs == old(attrs)[a := Attr(name, old(attrs)[a].refs)]
    {
      assert Counted(attrs, own, a);
      RecordKeeps(attrs, fAttrs, cursors, own, a, Attr(name, attrs[a].refs), own.held);
      attrs := attrs[a := Attr(name, attrs[a].refs)];
    }

    // ---------- listing ----------

    method OpenAttrDir(v: Ref) returns (k: Cookie)
      requires Valid() && v in fAttrs
      modifies `cursors, `nextHandle, `own
      ensures Valid() && k !in old(cursors) && cursors.Keys == old(cursors).Keys + {k}
      ensures cursors[k] == Cursor(v, Under(fAttrs[v], First(fAttrs[v].Keys)))
      ensures forall j <- old(cursors) :: cursors[j] == old(cursors)[j]
      ensures own == old(own).(scans := old(own).scans[k := Rewound(fAttrs[v].Keys)])
    {
      k := Cookie(nextHandle);
      assert !Given(k.n, nextHandle);
      OneMoreCursor(attrs, cursors, nextHandle, k, Cursor(v, None));
      nextHandle := nextHandle + 1;
      SetCursor(k, v, None, Rewound(fAttrs[v].Keys));
    }

    method CloseAttrDir(k: Cookie)
      requires Valid() && k in cursors
      modifies `cursors, `own
      ensures Valid() && cursors == old(cursors) - {k} && own == old(own).(scans := old(own).scans - {k})
    {
      ghost var c, o := cursors, own;
      cursors := cursors - {k};
      own := own.(scans := own.scans - {k});
      forall j | j in cursors ensures CursorOk(attrs, fAttrs, cursors, own, j) {
        assert CursorOk(attrs, fAttrs, c, o, j);
      }
      SameAttrs(attrs, fAttrs, o, own);
      assert forall j <- cursors :: j in c;
    }

    method RewindAttrDir(k: Cookie)
      requires Valid() && k in cursors
      modifies `cursors, `own
      ensures Valid() && SameVnodes(old(cursors), cursors)
      ensures cursors[k].vnode in fAttrs
      ensures cursors == old(cursors)[k := Cursor(cursors[k].vnode,
                Under(fAttrs[cursors[k].vnode], First(fAttrs[cursors[k].vnode].Keys)))]
      ensures own == old(own).(scans := old(own).scans[k := Rewound(fAttrs[cursors[k].vnode].Keys)])
    {
      assert CursorOk(attrs, fAttrs, cursors, own, k);
      SetCursor(k, cursors[k].vnode, None, Rewound(fAttrs[cursors[k].vnode].Keys));
    }

    lemma SameAttrs(s: Attrs, t: Trees, o: Owners, p: Owners)
      requires AttrsOk(s, t, o) && p.owner == o.owner && p.held == o.held
      ensures AttrsOk(s, t, p)
    {
      forall a | a in s ensures Counted(s, p, a) { assert Counted(s, o, a); }
      forall v, n | v in t && n in t[v] ensures EntryOk(s, t, p, v, n) { assert EntryOk(s, t, o, v, n); }
      forall a | a in p.owner ensures OwnedOk(s, t, p, a) { assert OwnedOk(s, t, o, a); }
      forall a | Held(p, a) ensures a in s { assert Held(o, a); }
    }

    /** AttrIteratorRewind and AttrIteratorNext: cursor k stands on the first name of v after
        `after`, which is what its new scan says. */
    method SetCursor(k: Cookie, v: Ref, after: Option<string>, ghost scan: Scan)
      requires AttrsOk(attrs, fAttrs, own) && CursorsOk(attrs, fAttrs, cursors, own)
      requires v in fAttrs && ScanOk(fAttrs[v].Keys, scan)
      requires scan.at == if after.None? then First(fAttrs[v].Keys) else Next(fAttrs[v].Keys, after.value)
      requires AllGiven(attrs, cursors, nextHandle) && Given(k.n, nextHandle)
      modifies `cursors, `own
      ensures Valid() && cursors.Keys == old(cursors).Keys + {k}
      ensures cursors[k] == Cursor(v, Under(fAttrs[v], if after.None? then First(fAttrs[v].Keys) else Next(fAttrs[v].Keys, after.value)))
      ensures forall j <- old(cursors) :: j != k ==> cursors[j] == old(cursors)[j]
      ensures own == old(own).(scans := old(own).scans[k := scan])
    {
      ghost var c, o := cursors, own;
      var a := FindFirst(v, after);
      cursors := cursors[k := Cursor(v, a)];
      own := own.(scans := own.scans[k := scan]);
      SameAttrs(attrs, fAttrs, o, own);
      forall j | j in cursors ensures CursorOk(attrs, fAttrs, cursors, own, j) {
        if j == k {
          assert scan.at.Some? ==> EntryOk(attrs, fAttrs, own, v, scan.at.value);
        } else {
          assert CursorOk(attrs, fAttrs, c, o, j);
        }
      }
      forall j | j in cursors ensures Given(j.n, nextHandle) { assert j == k || Given(j.n, nextHandle); }
    }

    /** Gives out names until `maxNum` are given, the buffer is full or the listing ends; it is
        an error if the buffer cannot even hold the first. What it gave out and what is left
        make up what was left before. */
    method ReadAttrDir(k: Cookie, maxNum: nat, bufferSize: nat) returns (st: Status, out: seq<Dirent>)
      requires Valid() && k in cursors
      modifies `cursors, `own
      ensures Valid() && SameVnodes(old(cursors), cursors) && k in old(own).scans && cursors[k].vnode in fAttrs
      ensures forall j <- cursors :: j != k ==> cursors[j] == old(cursors)[j]
      ensures own == old(own).(scans := old(own).scans[k :=
                       EmittedMany(fAttrs[cursors[k].vnode].Keys, old(own).scans[k], |out|)])
      ensures own.scans[k].emitted == old(own).scans[k].emitted + NamesOf(out)
      ensures own.scans[k].present == old(own).scans[k].present
      ensures var names := fAttrs[cursors[k].vnode].Keys;
              Listed(names, old(own).scans[k].at) == NamesOf(out) + Listed(names, own.scans[k].at)
      ensures forall i :: 0 <= i < |out| ==> out[i].name in fAttrs[cursors[k].vnode]
      ensures forall i, j :: 0 <= i < j < |out| ==> Less(out[i].name, out[j].name)
      ensures out != [] ==> out[0].at == 0
      ensures forall i, j {:trigger out[i], out[j]} :: 0 <= i && j == i + 1 && j < |out| ==>
                out[j].at == out[i].at + direntHeader + |out[i].name| + 1
      ensures forall i :: 0 <= i < |out| ==> out[i].reclen == (direntHeader + |out[i].name| + 1) % 0x1_0000
      ensures forall i :: 0 <= i < |out| ==> out[i].at + direntHeader + |out[i].name| + 1 <= bufferSize
      ensures |out| <= maxNum
      ensures var next := own.scans[k].at;
              var used := if out == [] then 0 else out[|out| - 1].at + direntHeader + |out[|out| - 1].name| + 1;
              && (|out| == maxNum || next.None? || bufferSize < used + direntHeader + |next.value| + 1)
              && (st == BufferOverflow <==> out == [] && 0 < maxNum && next.Some?)
      ensures st == OK || st == BufferOverflow
    {
      assert CursorOk(attrs, fAttrs, cursors, own, k);
      ghost var scan, names := own.scans[k], fAttrs[cursors[k].vnode].Keys;
      st, out := GiveOut(k, maxNum, bufferSize);
      GivenInOrder(names, scan, own.scans[k], out);
    }

    /** Names that a scan in order emits are names of the listing, in order. */
    lemma GivenInOrder(names: set<string>, s: Scan, t: Scan, out: seq<Dirent>)
      requires ScanOk(names, s) && t == EmittedMany(names, s, |out|) && t.emitted == s.emitted + NamesOf(out)
      ensures Listed(names, s.at) == NamesOf(out) + Listed(names, t.at) && t.present == s.present
      ensures forall i :: 0 <= i < |out| ==> out[i].name in names
      ensures forall i, j :: 0 <= i < j < |out| ==> Less(out[i].name, out[j].name)
    {
      EmittedManyIs(names, s, |out|);
      assert t.emitted[|s.emitted|..] == NamesOf(out);
      var l := Listed(names, s.at);
      if s.at.Some? { ListedIs(names, s.at.value); }
      forall i | 0 <= i < |out| ensures out[i].name == l[i] && l[i] in l { }
    }

    /** The loop of ReadAttrDir. */
    method GiveOut(k: Cookie, maxNum: nat, bufferSize: nat) returns (st: Status, out: seq<Dirent>)
      requires Valid() && k in cursors
      modifies `cursors, `own
      ensures Valid() && SameVnodes(old(cursors), cursors) && k in old(own).scans && cursors[k].vnode in fAttrs
      ensures forall j <- cursors :: j != k ==> cursors[j] == old(cursors)[j]
      ensures own == old(own).(scans := old(own).scans[k :=
                       EmittedMany(fAttrs[cursors[k].vnode].Keys, old(own).scans[k], |out|)])
      ensures own.scans[k].emitted == old(own).scans[k].emitted + NamesOf(out)
      ensures LaidOut(direntHeader, out, bufferSize) && |out| <= maxNum
      ensures var next := own.scans[k].at;
              && (|out| == maxNum || next.None? || bufferSize < End(direntHeader, out) + direntHeader + |next.value| + 1)
              && (st == BufferOverflow <==> out == [] && 0 < maxNum && next.Some?)
      ensures st == OK || st == BufferOverflow
    {
      st, out := OK, [];
      var left: int := bufferSize;
      ghost var v, c, o := cursors[k].vnode, cursors, own;
      assert CursorOk(attrs, fAttrs, cursors, own, k);
      ghost var names, first := fAttrs[v].Keys, own.scans[k];
      ghost var scan := first;
      assert own.scans == o.scans[k := scan];
      while |out| < maxNum && cursors[k].attr.Some?
        invariant Valid() && SameVnodes(c, cursors) && v == cursors[k].vnode && CursorOk(attrs, fAttrs, cursors, own, k)
        invariant forall j <- cursors :: j != k ==> cursors[j] == c[j]
        invariant own == o.(scans := o.scans[k := scan])
        invariant scan == EmittedMany(names, first, |out|) && scan.emitted == first.emitted + NamesOf(out)
        invariant |out| <= maxNum && left == bufferSize - End(direntHeader, out) && 0 <= left && st == OK
        invariant LaidOut(direntHeader, out, bufferSize)
        decreases maxNum - |out|
      {
        var attr := cursors[k].attr.value;
        var name := attrs[attr].name;
        if left < direntHeader + |name| + 1 {
          if out == [] { st := BufferOverflow; }
          break;
        }
        ghost var before := out;
        EmitNext(k, name);
        out := PutEntry(direntHeader, out, name, bufferSize);
        OneMore(o, k, names, first, scan, before, out);
        scan := Emitted(names, scan);
        left := left - (direntHeader + |name| + 1);
      }
    }

    lemma OneMore(o: Owners, k: Cookie, names: set<string>, first: Scan, scan: Scan, out: seq<Dirent>, more: seq<Dirent>)
      requires scan.at.Some? && |more| == |out| + 1 && NamesOf(more) == NamesOf(out) + [scan.at.value]
      requires scan == EmittedMany(names, first, |out|) && scan.emitted == first.emitted + NamesOf(out)
      ensures var s := Emitted(names, scan);
              && s == EmittedMany(names, first, |more|) && s.emitted == first.emitted + NamesOf(more)
              && o.scans[k := scan][k := s] == o.scans[k := s]
    {
    }

    /** AttrIteratorNext after the name under the cursor has been given out. */
    method EmitNext(k: Cookie, name: string)
      requires Valid() && k in cursors && CursorOk(attrs, fAttrs, cursors, own, k) && own.scans[k].at == Some(name)
      modifies `cursors, `own
      ensures Valid() && SameVnodes(old(cursors), cursors) && CursorOk(attrs, fAttrs, cursors, own, k)
      ensures forall j <- cursors :: j != k ==> cursors[j] == old(cursors)[j]
      ensures own == old(own).(scans := old(own).scans[k := Emitted(fAttrs[cursors[k].vnode].Keys, old(own).scans[k])])
    {
      ghost var scan := Emitted(fAttrs[cursors[k].vnode].Keys, own.scans[k]);
      EmittedOk(fAttrs[cursors[k].vnode].Keys, own.scans[k]);
      assert Given(k.n, nextHandle);
      SetCursor(k, cursors[k].vnode, Some(name), scan);
    }

    // ---------- the vnodes themselves ----------

    method AddVnode(v: Ref)
      requires Valid() && v !in fAttrs
      modifies `fAttrs
      ensures Valid() && fAttrs == old(fAttrs)[v := map[]]
    {
      ghost var t := fAttrs;
      fAttrs := fAttrs[v := map[]];
      forall w, n | w in fAttrs && n in fAttrs[w] ensures EntryOk(attrs, fAttrs, own, w, n) { assert EntryOk(attrs, t, own, w, n); }
      forall a | a in own.owner ensures OwnedOk(attrs, fAttrs, own, a) { assert OwnedOk(attrs, t, own, a); }
      forall k | k in cursors ensures CursorOk(attrs, fAttrs, cursors, own, k) { assert CursorOk(attrs, t, cursors, own, k); }
    }

    /** ~ShmfsVnode: the tree is emptied. An attribute that somebody has open outlives it. */
    method ReleaseAll(v: Ref)
      requires Valid() && v in fAttrs && forall k <- cursors :: cursors[k].vnode != v
      modifies this
      ensures Valid() && fAttrs == old(fAttrs)[v := map[]] && cursors == old(cursors) && own.held == old(own.held)
    {
      ghost var t := fAttrs;
      while fAttrs[v] != map[]
        invariant Valid() && v in fAttrs && fAttrs == t[v := fAttrs[v]] && cursors == old(cursors)
        invariant own.held == old(own.held)
        decreases fAttrs[v].Keys
      {
        var name :| name in fAttrs[v];
        var st := RemoveAttr(v, name);
      }
    }
  }
}
