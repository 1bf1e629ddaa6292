/** The cursors of a directory. They give out "." and ".." before the entries, and that is
    where they differ from the cursors of the attributes: one that has not got past the dots
    does not step off an entry that is removed. */
module DirCursors {
  import opened Basics
  import opened Names
  import opened Listing

  // `node` is the entry, named by its name, that the cursor stands on or will come to.
  datatype DirIterator = DirIterator(idx: int, node: Option<string>)
  datatype Cookie = Cookie(n: int)

  datatype Status = OK | BufferOverflow

  ghost function Rewind(names: set<string>): DirIterator {
    DirIterator(0, First(names))
  }

  /** IteratorGet does not stop at ".." in a directory without a parent. */
  function Bumped(hasParent: bool, it: DirIterator): DirIterator {
    if it.idx == 1 && !hasParent then it.(idx := 2) else it
  }

  /** IteratorNext. */
  ghost function Advanced(names: set<string>, hasParent: bool, it: DirIterator): DirIterator {
    if it.idx == 0 then it.(idx := if hasParent then 1 else 2)
    else if it.idx == 1 then it.(idx := 2)
    else if it.idx == 2 && it.node.Some? then it.(node := Next(names, it.node.value))
    else it
  }

  /** What RemoveNode does to a cursor before the entry n goes. */
  ghost function Adjusted(names: set<string>, hasParent: bool, it: DirIterator, n: string): DirIterator {
    if it.node == Some(n) then Advanced(names, hasParent, it) else it
  }

  /** The cursor stands on nothing that is not there. */
  predicate Sound(names: set<string>, it: DirIterator) {
    0 <= it.idx <= 2 && (it.node.Some? ==> it.node.value in names)
  }

  /** Removing an entry leaves a cursor standing on it exactly when the cursor had come to
      that entry and was still at the dots. */
  lemma StaysSoundIff(names: set<string>, hasParent: bool, it: DirIterator, n: string)
    requires Sound(names, it)
    ensures Sound(names - {n}, Adjusted(names, hasParent, it, n)) <==> it.idx == 2 || it.node != Some(n)
  {
    LessIrreflexive(n);
  }

  /** For instance: a directory with the one entry "a", a cursor just opened, and "a" removed. */
  lemma DanglingCursor()
    ensures Rewind({"a"}) == DirIterator(0, Some("a"))
    ensures Adjusted({"a"}, true, Rewind({"a"}), "a") == DirIterator(1, Some("a"))
    ensures !Sound({"a"} - {"a"}, Adjusted({"a"}, true, Rewind({"a"}), "a"))
  {
    FirstUnique({"a"}, "a");
  }

  /** The dots that a cursor still has to give out. */
  function Dots(hasParent: bool, it: DirIterator): seq<string> {
    if it.idx == 0 then if hasParent then [".", ".."] else ["."]
    else if it.idx == 1 && hasParent then [".."] else []
  }

  /** The name it stands on. */
  function Current(hasParent: bool, it: DirIterator): Option<string> {
    if it.idx == 0 then Some(".") else if it.idx == 1 && hasParent then Some("..")
    else if it.idx in {1, 2} then it.node else None
  }

  lemma AdvanceIsCloser(names: set<string>, hasParent: bool, it: DirIterator)
    ensures var j := Advanced(names, hasParent, Bumped(hasParent, it));
            it.node.Some? && j.node.Some? && it.idx == 2 ==> |Above(names, j.node.value)| < |Above(names, it.node.value)|
  {
    if it.node.Some? { NextIsCloser(names, it.node.value); }
  }

  /** All that it still has to give out, if the directory stays as it is. */
  ghost function Rest(names: set<string>, hasParent: bool, it: DirIterator): seq<string>
    decreases if it.idx in {0, 1} then 2 - it.idx else 0, if it.node.None? then 0 else 1 + |Above(names, it.node.value)|
  {
    if Current(hasParent, it).None? then []
    else
      AdvanceIsCloser(names, hasParent, it);
      [Current(hasParent, it).value] + Rest(names, hasParent, Advanced(names, hasParent, Bumped(hasParent, it)))
  }

  /** That is the dots, and then the entries from the one the cursor is on. */
  lemma {:induction false} RestSplit(names: set<string>, hasParent: bool, it: DirIterator)
    requires it.idx in {0, 1, 2}
    ensures Rest(names, hasParent, it) == Dots(hasParent, it) + Listed(names, it.node)
    decreases if it.idx in {0, 1} then 2 - it.idx else 0, if it.node.None? then 0 else 1 + |Above(names, it.node.value)|
  {
    if Current(hasParent, it).Some? {
      AdvanceIsCloser(names, hasParent, it);
      RestSplit(names, hasParent, Advanced(names, hasParent, Bumped(hasParent, it)));
    }
  }

  /** For a cursor that stands on nothing that is gone: the dots it has not got past, then names
      of the directory, in order. */
  lemma RestIs(names: set<string>, hasParent: bool, it: DirIterator)
    requires it.idx in {0, 1, 2} && (it.node.Some? ==> it.node.value in names)
    ensures var d := if it.idx == 0 then if hasParent then 2 else 1 else if it.idx == 1 && hasParent then 1 else 0;
            var r := Rest(names, hasParent, it);
            && d <= |r|
            && (forall i :: 0 <= i < d ==> r[i] == if it.idx == 0 && i == 0 then "." else "..")
            && (forall i :: d <= i < |r| ==> r[i] in names)
            && (forall i, j :: d <= i < j < |r| ==> Less(r[i], r[j]))
  {
    RestSplit(names, hasParent, it);
    if it.node.Some? {
      ListedIs(names, it.node.value);
      assert forall n :: n in Listed(names, it.node) ==> n in names;
    }
  }

  /** The whole listing of a directory that stays as it is: ".", then ".." exactly if it has a
      parent, then each of its names, once and in order. */
  lemma WholeListing(names: set<string>, hasParent: bool)
    ensures var r, d := Rest(names, hasParent, DirIterator(0, First(names))), if hasParent then 2 else 1;
            && d <= |r| && r[..d] == (if hasParent then [".", ".."] else ["."])
            && (forall i, j :: d <= i < j < |r| ==> Less(r[i], r[j]))
            && (forall n :: n in r[d..] <==> n in names)
  {
    RestSplit(names, hasParent, DirIterator(0, First(names)));
    AllListed(names);
    ListingAfter(if hasParent then [".", ".."] else ["."], Listed(names, First(names)));
  }

  lemma ListingAfter(dots: seq<string>, l: seq<string>)
    requires forall i, j :: 0 <= i < j < |l| ==> Less(l[i], l[j])
    ensures (dots + l)[..|dots|] == dots && (dots + l)[|dots|..] == l
    ensures forall i, j :: |dots| <= i < j < |dots + l| ==> Less((dots + l)[i], (dots + l)[j])
  {
  }

  /** One name given out leaves the rest without it. */
  lemma RestStep(names: set<string>, hasParent: bool, it: DirIterator)
    ensures var r, j := Rest(names, hasParent, it), Bumped(hasParent, it);
            && Rest(names, hasParent, j) == r
            && (r == [] ==> Advanced(names, hasParent, j) == j)
            && (r != [] ==> Rest(names, hasParent, Advanced(names, hasParent, j)) == r[1..])
  {
  }

  // ---------- whole runs ----------

  /** The entries' part of the listing is a scan that starts once the dots are given out. */
  ghost predicate CursorOk(names: set<string>, it: DirIterator, s: Scan) {
    && Sound(names, it) && s.at == it.node && ScanOk(names, s)
    && (it.idx < 2 ==> s.emitted == [])
  }

  ghost function IteratorAfter(names: set<string>, hasParent: bool, it: DirIterator, step: Listing.Step): DirIterator {
    match step
    case Emit => Advanced(names, hasParent, Bumped(hasParent, it))
    case Insert(n) => it
    case Remove(n) => Adjusted(names, hasParent, it, n)
  }

  ghost function ScanOf(names: set<string>, hasParent: bool, it: DirIterator, s: Scan, step: Listing.Step): Scan {
    if step.Emit? && Bumped(hasParent, it).idx < 2 then s else ScanAfter(names, s, step)
  }

  /** No entry is removed while a cursor that has come to it is still at the dots. */
  ghost predicate Unspoiled(names: set<string>, hasParent: bool, it: DirIterator, steps: seq<Listing.Step>)
    decreases |steps|
  {
    steps != [] ==>
      && (steps[0].Remove? ==> it.idx == 2 || it.node != Some(steps[0].name))
      && Unspoiled(NamesAfter(names, steps[0]), hasParent, IteratorAfter(names, hasParent, it, steps[0]), steps[1..])
  }

  /** What a step gives out. */
  ghost function GivenOut(names: set<string>, hasParent: bool, it: DirIterator, step: Listing.Step): seq<string> {
    var rest := Rest(names, hasParent, it);
    if step.Emit? && rest != [] then [rest[0]] else []
  }

  /** The names in the end, the cursor, its scan, and all that was given out. */
  ghost function Run(names: set<string>, hasParent: bool, it: DirIterator, s: Scan, steps: seq<Listing.Step>)
    : (set<string>, DirIterator, Scan, seq<string>)
    decreases |steps|
  {
    if steps == [] then (names, it, s, [])
    else
      var (m, j, t, given) := Run(NamesAfter(names, steps[0]), hasParent, IteratorAfter(names, hasParent, it, steps[0]),
                                  ScanOf(names, hasParent, it, s, steps[0]), steps[1..]);
      (m, j, t, GivenOut(names, hasParent, it, steps[0]) + given)
  }

  /** The cursor never stands on an entry that is gone, from beginning to end. */
  ghost predicate AllSound(names: set<string>, hasParent: bool, it: DirIterator, steps: seq<Listing.Step>)
    decreases |steps|
  {
    && Sound(names, it)
    && (steps != [] ==>
          AllSound(NamesAfter(names, steps[0]), hasParent, IteratorAfter(names, hasParent, it, steps[0]), steps[1..]))
  }

  /** A cursor stays sound through a run exactly when no entry is removed in that way. */
  lemma {:induction false} AllSoundIff(names: set<string>, hasParent: bool, it: DirIterator, steps: seq<Listing.Step>)
    requires Sound(names, it)
    ensures AllSound(names, hasParent, it, steps) <==> Unspoiled(names, hasParent, it, steps)
    decreases |steps|
  {
    if steps != [] {
      var m, j := NamesAfter(names, steps[0]), IteratorAfter(names, hasParent, it, steps[0]);
      if steps[0].Remove? { StaysSoundIff(names, hasParent, it, steps[0].name); }
      if Sound(m, j) { AllSoundIff(m, hasParent, j, steps[1..]); }
    }
  }

  lemma StepKeeps(names: set<string>, hasParent: bool, it: DirIterator, s: Scan, step: Listing.Step)
    requires CursorOk(names, it, s)
    requires step.Remove? ==> it.idx == 2 || it.node != Some(step.name)
    ensures CursorOk(NamesAfter(names, step), IteratorAfter(names, hasParent, it, step), ScanOf(names, hasParent, it, s, step))
    ensures ScanOf(names, hasParent, it, s, step).present == s.present - if step.Remove? then {step.name} else {}
  {
    match step {
      case Emit => if s.at.Some? { EmittedOk(names, s); }
      case Insert(n) => InsertedOk(names, s, n);
      case Remove(n) => SkippedOk(names, s, n); StaysSoundIff(names, hasParent, it, n);
    }
  }

  lemma {:induction false} RunKeeps(names: set<string>, hasParent: bool, it: DirIterator, s: Scan, steps: seq<Listing.Step>)
    requires CursorOk(names, it, s) && Unspoiled(names, hasParent, it, steps)
    ensures var (m, j, t, given) := Run(names, hasParent, it, s, steps);
            CursorOk(m, j, t) && t.present == s.present - (set n | n in s.present && Remove(n) in steps)
    decreases |steps|
  {
    if steps != [] {
      StepKeeps(names, hasParent, it, s, steps[0]);
      RunKeeps(NamesAfter(names, steps[0]), hasParent, IteratorAfter(names, hasParent, it, steps[0]),
               ScanOf(names, hasParent, it, s, steps[0]), steps[1..]);
      assert steps == [steps[0]] + steps[1..];
    }
  }

  /** A step gives out a dot, or the name that the scan emits, or nothing. */
  lemma StepGives(names: set<string>, hasParent: bool, it: DirIterator, s: Scan, step: Listing.Step)
    requires CursorOk(names, it, s)
    requires step.Remove? ==> it.idx == 2 || it.node != Some(step.name)
    ensures Dots(hasParent, it) + ScanOf(names, hasParent, it, s, step).emitted
              == s.emitted + GivenOut(names, hasParent, it, step) + Dots(hasParent, IteratorAfter(names, hasParent, it, step))
  {
  }

  /** What a run gives out is the dots and then what the scan emits. */
  lemma {:induction false} RunGives(names: set<string>, hasParent: bool, it: DirIterator, s: Scan, steps: seq<Listing.Step>)
    requires CursorOk(names, it, s) && Unspoiled(names, hasParent, it, steps)
    ensures var (m, j, t, given) := Run(names, hasParent, it, s, steps);
            Dots(hasParent, it) + t.emitted == s.emitted + given + Dots(hasParent, j)
    decreases |steps|
  {
    if steps != [] {
      StepKeeps(names, hasParent, it, s, steps[0]);
      StepGives(names, hasParent, it, s, steps[0]);
      var k, u := IteratorAfter(names, hasParent, it, steps[0]), ScanOf(names, hasParent, it, s, steps[0]);
      RunGives(NamesAfter(names, steps[0]), hasParent, k, u, steps[1..]);
      var (_, j, t, given) := Run(NamesAfter(names, steps[0]), hasParent, k, u, steps[1..]);
      Joined(Dots(hasParent, it), u.emitted, s.emitted, GivenOut(names, hasParent, it, steps[0]),
             Dots(hasParent, k), t.emitted, given, Dots(hasParent, j));
    }
  }

  /** Two stretches of a run in a row: dots and emitted names against what was given out. */
  lemma Joined(d0: seq<string>, e1: seq<string>, e0: seq<string>, g1: seq<string>,
               d1: seq<string>, e2: seq<string>, g2: seq<string>, d2: seq<string>)
    requires d0 + e1 == e0 + g1 + d1 && d1 + e2 == e1 + g2 + d2 && (e1 == [] || d1 == []) && (e1 == [] ==> e0 == [])
    ensures d0 + e2 == e0 + (g1 + g2) + d2
  {
    if e1 == [] {
      assert d0 + e1 == d0 && e0 + g1 + d1 == g1 + d1;
      assert d0 + e2 == g1 + (d1 + e2);
      assert d1 + e2 == g2 + d2;
    } else {
      assert e2 == e1 + g2 + d2;
      assert d0 + e2 == (d0 + e1) + (g2 + d2);
      assert d0 + e1 == e0 + g1;
    }
  }

  /** Under that condition a directory listing does what an attribute listing always does, after
      the dots: they come first, and what is given out after them is what the scan emits. */
  lemma DirScanTheorem(names: set<string>, hasParent: bool, steps: seq<Listing.Step>)
    requires Unspoiled(names, hasParent, Rewind(names), steps)
    ensures var (m, it, t, given) := Run(names, hasParent, Rewind(names), Rewound(names), steps);
            var dots := if hasParent then [".", ".."] else ["."];
            && Sound(m, it) && Increasing(t.emitted)
            && ((|given| < |dots| && given == dots[..|given|] && t.emitted == []) || given == dots + t.emitted)
            && (it.node.None? ==> forall p <- names :: Remove(p) !in steps ==> p in t.emitted)
  {
    RewoundOk(names);
    RunKeeps(names, hasParent, Rewind(names), Rewound(names), steps);
    RunGives(names, hasParent, Rewind(names), Rewound(names), steps);
    var (m, it, t, given) := Run(names, hasParent, Rewind(names), Rewound(names), steps);
    var dots, left := if hasParent then [".", ".."] else ["."], Dots(hasParent, it);
    assert dots + t.emitted == given + left;
    if left != [] {
      assert dots == given + left;
    }
  }

  /** The cursor after `count` steps that give out names. */
  ghost function AfterEmits(names: set<string>, hasParent: bool, it: DirIterator, count: nat): DirIterator {
    if count == 0 then it
    else IteratorAfter(names, hasParent, AfterEmits(names, hasParent, it, count - 1), Emit)
  }

  // ---------- the loops over cursors and entries ----------

  class DirectoryListing {
    // The names in fNodes, and the open cursors.
    var fNodes: set<string>
    var fIterators: map<Cookie, DirIterator>
    const hasParent: bool
    const direntHeader: nat

    constructor (hasParent: bool, direntHeader: nat)
      ensures fNodes == {} && fIterators == map[] && this.hasParent == hasParent && this.direntHeader == direntHeader
    {
      fNodes, fIterators := {}, map[];
      this.hasParent, this.direntHeader := hasParent, direntHeader;
    }

    /** fNodes.LeftMost and fNodes.Next: the first name after `after`, or the first of all. */
    method FindFirst(after: Option<string>) returns (node: Option<string>)
      ensures node == if after.None? then First(fNodes) else Next(fNodes, after.value)
    {
      ghost var names := if after.None? then fNodes else Above(fNodes, after.value);
      node := None;
      var rest := fNodes;
      while rest != {}
        invariant rest <= fNodes
        invariant node.Some? ==> node.value in names
        invariant forall n :: n in names && n !in rest ==> node.Some? && (n == node.value || Less(node.value, n))
        decreases rest
      {
        var n :| n in rest;
        if (after.None? || Less(after.value, n)) && (node.None? || Less(n, node.value)) {
          forall m | m in names && m !in rest ensures Less(n, m) {
            if m != node.value { LessTransitive(n, node.value, m); }
          }
          node := Some(n);
        } else if node.Some? {
          LessTotal(n, node.value);
        }
        rest := rest - {n};
      }
      if node.Some? { FirstUnique(names, node.value); }
    }

    /** OpenDir: a new cursor, at the cookie k that operator new gave. */
    method OpenDir(k: Cookie)
      requires k !in fIterators
      modifies `fIterators
      ensures fIterators == old(fIterators)[k := Rewind(fNodes)]
    {
      fIterators := fIterators[k := DirIterator(0, None)];
      RewindDir(k);
    }

    /** IteratorRewind. */
    method RewindDir(k: Cookie)
      requires k in fIterators
      modifies `fIterators
      ensures fIterators == old(fIterators)[k := Rewind(fNodes)]
    {
      var node := FindFirst(None);
      fIterators := fIterators[k := DirIterator(0, node)];
    }

    method CloseDir(k: Cookie)
      requires k in fIterators
      modifies `fIterators
      ensures fIterators == old(fIterators) - {k}
    {
      fIterators := fIterators - {k};
    }

    /** fNodes.Insert, which no cursor takes notice of. */
    method InsertNode(n: string)
      requires n !in fNodes
      modifies `fNodes
      ensures fNodes == old(fNodes) + {n}
    {
      fNodes := fNodes + {n};
    }

    method IteratorNext(it: DirIterator) returns (r: DirIterator)
      ensures r == Advanced(fNodes, hasParent, it)
    {
      r := it;
      if it.idx == 0 {
        r := r.(idx := if hasParent then 1 else 2);
      } else if it.idx == 1 {
        r := r.(idx := 2);
      } else if it.idx == 2 && it.node.Some? {
        var next := FindFirst(it.node);
        r := r.(node := next);
      }
    }

    method RemoveNode(n: string)
      requires n in fNodes
      modifies `fNodes, `fIterators
      ensures fNodes == old(fNodes) - {n}
      ensures fIterators == map k | k in old(fIterators) :: Adjusted(old(fNodes), hasParent, old(fIterators)[k], n)
      ensures forall k <- fIterators :: var was := old(fIterators)[k];
                fIterators[k] == if was.node != Some(n) then was
                                 else if was.idx == 2 then DirIterator(2, Next(old(fNodes), n))
                                 else if was.idx == 0 && hasParent then DirIterator(1, Some(n))
                                 else if was.idx in {0, 1} then DirIterator(2, Some(n)) else was
    {
      AdjustAll(n);
      fNodes := fNodes - {n};
    }

    method AdjustAll(n: string)
      modifies `fIterators
      ensures fIterators == map k | k in old(fIterators) :: Adjusted(fNodes, hasParent, old(fIterators)[k], n)
    {
      ghost var its := fIterators;
      var rest := fIterators.Keys;
      while rest != {}
        invariant rest <= its.Keys == fIterators.Keys
        invariant forall k <- its :: fIterators[k] == if k in rest then its[k] else Adjusted(fNodes, hasParent, its[k], n)
        decreases rest
      {
        var k :| k in rest;
        if fIterators[k].node == Some(n) {
          var it := IteratorNext(fIterators[k]);
          fIterators := fIterators[k := it];
        }
        rest := rest - {k};
      }
    }

    /** IteratorGet: the first of what is left, if anything is. */
    method IteratorGet(it: DirIterator) returns (name: Option<string>, r: DirIterator)
      ensures var rest := Rest(fNodes, hasParent, it); name == if rest == [] then None else Some(rest[0])
      ensures r == Bumped(hasParent, it)
    {
      r := it;
      if it.idx == 0 {
        return Some("."), r;
      }
      if it.idx == 1 {
        if hasParent {
          return Some(".."), r;
        }
        r := r.(idx := 2);
      }
      name := if r.idx == 2 then r.node else None;
    }

    /** Gives out names until `maxNum` are given, the buffer is full or the listing ends; it is
        an error if the buffer cannot even hold the first. What it gave out and what is left
        make up what was left before. */
    method ReadDir(k: Cookie, maxNum: nat, bufferSize: nat) returns (st: Status, out: seq<Dirent>)
      requires k in fIterators
      modifies `fIterators
      ensures k in fIterators && fIterators - {k} == old(fIterators) - {k}
      ensures Rest(fNodes, hasParent, old(fIterators)[k]) == NamesOf(out) + Rest(fNodes, hasParent, fIterators[k])
      ensures Bumped(hasParent, fIterators[k]) == Bumped(hasParent, AfterEmits(fNodes, hasParent, old(fIterators)[k], |out|))
      ensures var it := old(fIterators)[k];
              var d := if it.idx == 0 then if hasParent then 2 else 1 else if it.idx == 1 && hasParent then 1 else 0;
              it.idx in {0, 1, 2} && (it.node.Some? ==> it.node.value in fNodes) ==>
                && (forall i :: 0 <= i < |out| && i < d ==> out[i].name == if it.idx == 0 && i == 0 then "." else "..")
                && (forall i :: d <= i < |out| ==> out[i].name in fNodes)
                && (forall i, j :: d <= i < j < |out| ==> Less(out[i].name, out[j].name))
      ensures out != [] ==> out[0].at == 0
      ensures forall i, j {:trigger out[i], out[j]} :: 0 <= i && j == i + 1 && j < |out| ==>
                out[j].at == out[i].at + direntHeader + |out[i].name| + 1
      ensures forall i :: 0 <= i < |out| ==> out[i].reclen == (direntHeader + |out[i].name| + 1) % 0x1_0000
      ensures forall i :: 0 <= i < |out| ==> out[i].at + direntHeader + |out[i].name| + 1 <= bufferSize
      ensures |out| <= maxNum
      ensures var rest := Rest(fNodes, hasParent, fIterators[k]);
              var used := if out == [] then 0 else out[|out| - 1].at + direntHeader + |out[|out| - 1].name| + 1;
              && (|out| == maxNum || rest == [] || bufferSize < used + direntHeader + |rest[0]| + 1)
              && (st == BufferOverflow <==> out == [] && 0 < maxNum && rest != [])
    {
      var it;
      st, out, it := GiveOut(fIterators[k], maxNum, bufferSize);
      RestCut(fIterators[k], out);
      fIterators := fIterators[k := it];
    }

    /** The loop of ReadDir, for a cursor that starts as `it` and ends as r. */
    method GiveOut(it: DirIterator, maxNum: nat, bufferSize: nat) returns (st: Status, out: seq<Dirent>, r: DirIterator)
      ensures Rest(fNodes, hasParent, it) == NamesOf(out) + Rest(fNodes, hasParent, r)
      ensures Bumped(hasParent, r) == Bumped(hasParent, AfterEmits(fNodes, hasParent, it, |out|))
      ensures LaidOut(direntHeader, out, bufferSize) && |out| <= maxNum
      ensures var rest := Rest(fNodes, hasParent, r);
              && (|out| == maxNum || rest == [] || bufferSize < End(direntHeader, out) + direntHeader + |rest[0]| + 1)
              && (st == BufferOverflow <==> out == [] && 0 < maxNum && rest != [])
    {
      st, out, r := OK, [], it;
      ghost var all, rest := Rest(fNodes, hasParent, it), Rest(fNodes, hasParent, it);
      var left: int := bufferSize;
      while |out| < maxNum
        invariant |out| <= maxNum && left == bufferSize - End(direntHeader, out) && 0 <= left && st == OK
        invariant LaidOut(direntHeader, out, bufferSize)
        invariant r == AfterEmits(fNodes, hasParent, it, |out|)
        invariant rest == Rest(fNodes, hasParent, r) && all == NamesOf(out) + rest
        decreases maxNum - |out|
      {
        RestStep(fNodes, hasParent, r);
        var name;
        name, r := IteratorGet(r);
        if name.None? {
          break;
        }
        var direntSize := direntHeader + |name.value| + 1;
        if left < direntSize {
          if out == [] { st := BufferOverflow; }
          break;
        }
        OneMore(NamesOf(out), rest);
        out := PutEntry(direntHeader, out, name.value, bufferSize);
        rest := rest[1..];
        left := left - direntSize;
        r := IteratorNext(r);
      }
    }

    lemma OneMore(given: seq<string>, rest: seq<string>)
      requires rest != []
      ensures given + rest == given + [rest[0]] + rest[1..]
    {
    }

    /** Names that lead the rest of a cursor are what RestIs says of it. */
    lemma RestCut(it: DirIterator, out: seq<Dirent>)
      requires NamesOf(out) <= Rest(fNodes, hasParent, it)
      ensures var d := if it.idx == 0 then if hasParent then 2 else 1 else if it.idx == 1 && hasParent then 1 else 0;
              it.idx in {0, 1, 2} && (it.node.Some? ==> it.node.value in fNodes) ==>
                && (forall i :: 0 <= i < |out| && i < d ==> out[i].name == if it.idx == 0 && i == 0 then "." else "..")
                && (forall i :: d <= i < |out| ==> out[i].name in fNodes)
                && (forall i, j :: d <= i < j < |out| ==> Less(out[i].name, out[j].name))
    {
      if it.idx in {0, 1, 2} && (it.node.Some? ==> it.node.value in fNodes) {
        RestIs(fNodes, hasParent, it);
        assert forall i :: 0 <= i < |out| ==> Rest(fNodes, hasParent, it)[i] == out[i].name;
      }
    }
  }
}
