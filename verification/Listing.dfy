/** One scan of a listing that changes while it is being read. */
module Listing {
  import opened Basics
  import opened Names

  // Where the cursor stands, the names it has given out since it was rewound, and the names
  // that have been in the listing all that time.
  datatype Scan = Scan(at: Option<string>, emitted: seq<string>, present: set<string>)

  ghost predicate Increasing(s: seq<string>) {
    forall i, j :: 0 <= i < j < |s| ==> Less(s[i], s[j])
  }

  ghost predicate ScanOk(names: set<string>, s: Scan) {
    && Increasing(s.emitted)
    && s.present <= names
    && match s.at
       case None => forall p <- s.present :: p in s.emitted
       case Some(n) =>
         && n in names
         && (forall e <- s.emitted :: Less(e, n))
         && (forall p <- s.present :: p in s.emitted || p == n || Less(n, p))
  }

  ghost function Rewound(names: set<string>): Scan {
    Scan(First(names), [], names)
  }

  /** The name under the cursor is given out and the cursor goes on to the next. */
  ghost function Emitted(names: set<string>, s: Scan): Scan
    requires s.at.Some?
  {
    Scan(Next(names, s.at.value), s.emitted + [s.at.value], s.present)
  }

  /** n is about to leave the listing: a cursor that stands on it goes on to the next name. */
  ghost function Skipped(names: set<string>, s: Scan, n: string): Scan {
    Scan(if s.at == Some(n) then Next(names, n) else s.at, s.emitted, s.present - {n})
  }

  /** n names given out one after the other, or as many as there are. */
  ghost function EmittedMany(names: set<string>, s: Scan, n: nat): Scan {
    if n == 0 then s
    else
      var t := EmittedMany(names, s, n - 1);
      if t.at.Some? then Emitted(names, t) else t
  }

  lemma RewoundOk(names: set<string>)
    ensures ScanOk(names, Rewound(names))
  {
  }

  lemma EmittedOk(names: set<string>, s: Scan)
    requires ScanOk(names, s) && s.at.Some?
    ensures ScanOk(names, Emitted(names, s))
  {
    var n, t := s.at.value, Emitted(names, s);
    forall e, m | e in t.emitted && Less(n, m) ensures Less(e, m) {
      if e != n { LessTransitive(e, n, m); }
    }
    forall p | p in s.present && Less(n, p) ensures p in Above(names, n) { }
  }

  lemma SkippedOk(names: set<string>, s: Scan, n: string)
    requires ScanOk(names, s)
    ensures ScanOk(names - {n}, Skipped(names, s, n))
  {
    LessIrreflexive(n);
    if s.at == Some(n) {
      forall e, m | e in s.emitted && Less(n, m) ensures Less(e, m) { LessTransitive(e, n, m); }
      forall p | p in s.present && Less(n, p) ensures p in Above(names, n) { }
    }
  }

  lemma InsertedOk(names: set<string>, s: Scan, n: string)
    requires ScanOk(names, s)
    ensures ScanOk(names + {n}, s)
  {
  }

  // ---------- whole runs ----------

  datatype Step = Emit | Insert(name: string) | Remove(name: string)

  ghost function NamesAfter(names: set<string>, step: Step): set<string> {
    match step
    case Emit => names
    case Insert(n) => names + {n}
    case Remove(n) => names - {n}
  }

  ghost function ScanAfter(names: set<string>, s: Scan, step: Step): Scan {
    match step
    case Emit => if s.at.Some? then Emitted(names, s) else s
    case Insert(n) => s
    case Remove(n) => Skipped(names, s, n)
  }

  ghost function Run(names: set<string>, s: Scan, steps: seq<Step>): (set<string>, Scan)
    decreases |steps|
  {
    if steps == [] then (names, s)
    else Run(NamesAfter(names, steps[0]), ScanAfter(names, s, steps[0]), steps[1..])
  }

  lemma {:induction false} RunKeeps(names: set<string>, s: Scan, steps: seq<Step>)
    requires ScanOk(names, s)
    ensures var (m, t) := Run(names, s, steps);
            ScanOk(m, t) && t.present == s.present - (set n | n in s.present && Remove(n) in steps)
    decreases |steps|
  {
    if steps != [] {
      match steps[0] {
        case Emit => if s.at.Some? { EmittedOk(names, s); }
        case Insert(n) => InsertedOk(names, s, n);
        case Remove(n) => SkippedOk(names, s, n);
      }
      RunKeeps(NamesAfter(names, steps[0]), ScanAfter(names, s, steps[0]), steps[1..]);
      assert steps == [steps[0]] + steps[1..];
    }
  }

  lemma IncreasingOnce(s: seq<string>, i: int, j: int)
    requires Increasing(s) && 0 <= i < |s| && 0 <= j < |s| && s[i] == s[j]
    ensures i == j
  {
    LessIrreflexive(s[i]);
  }

  /** Whatever is inserted and removed while a scan goes on, the names it gives out are strictly
      increasing, the cursor never stands on a name that is gone, and once it has reached the
      end every name that was there from start to end has been given out, and only once. */
  lemma ScanTheorem(names: set<string>, steps: seq<Step>)
    ensures var (m, t) := Run(names, Rewound(names), steps);
            && Increasing(t.emitted)
            && (t.at.Some? ==> t.at.value in m)
            && (t.at.None? ==> forall p <- names :: Remove(p) !in steps ==>
                  exists i :: 0 <= i < |t.emitted| && t.emitted[i] == p
                              && forall j :: 0 <= j < |t.emitted| && t.emitted[j] == p ==> j == i)
  {
    RewoundOk(names);
    RunKeeps(names, Rewound(names), steps);
    var (m, t) := Run(names, Rewound(names), steps);
    if t.at.None? {
      forall p | p in names && Remove(p) !in steps
        ensures exists i :: 0 <= i < |t.emitted| && t.emitted[i] == p
                            && forall j :: 0 <= j < |t.emitted| && t.emitted[j] == p ==> j == i
      {
        assert p in t.present;
        var i :| 0 <= i < |t.emitted| && t.emitted[i] == p;
        forall j | 0 <= j < |t.emitted| && t.emitted[j] == p ensures j == i { IncreasingOnce(t.emitted, i, j); }
      }
    }
  }

  // ---------- what is left of a listing ----------

  /** What is left of a listing that has come to the name n: n and all names above it. */
  ghost function Listed(names: set<string>, n: Option<string>): seq<string>
    decreases if n.None? then 0 else 1 + |Above(names, n.value)|
  {
    if n.None? then []
    else
      NextIsCloser(names, n.value);
      [n.value] + Listed(names, Next(names, n.value))
  }

  lemma NextIsCloser(names: set<string>, n: string)
    ensures Next(names, n).Some? ==> |Above(names, Next(names, n).value)| < |Above(names, n)|
  {
    if Next(names, n).Some? {
      var m := Next(names, n).value;
      NextIff(names, n, m);
      LessIrreflexive(m);
      forall k | k in Above(names, m) ensures k in Above(names, n) { LessTransitive(n, m, k); }
      SubsetSize(Above(names, m), Above(names, n) - {m});
    }
  }

  /** It gives n and every name above n, once and in order. */
  lemma {:induction false} ListedIs(names: set<string>, n: string)
    ensures var l := Listed(names, Some(n));
            && (forall i, j :: 0 <= i < j < |l| ==> Less(l[i], l[j]))
            && (forall k :: k in l <==> k == n || (k in names && Less(n, k)))
    decreases |Above(names, n)|
  {
    var next := Next(names, n);
    if next.Some? {
      var m := next.value;
      NextIsCloser(names, n);
      NextIff(names, n, m);
      ListedIs(names, m);
      var l, rest := Listed(names, Some(n)), Listed(names, next);
      forall k | k in rest ensures Less(n, k) {
        if k != m { LessTransitive(n, m, k); }
      }
      assert forall i :: 0 < i < |l| ==> l[i] == rest[i - 1];
    } else {
      NextIff(names, n, n);
    }
  }

  /** From the first name on it gives all names. */
  lemma AllListed(names: set<string>)
    ensures var l := Listed(names, First(names));
            && (forall i, j :: 0 <= i < j < |l| ==> Less(l[i], l[j]))
            && (forall k :: k in l <==> k in names)
  {
    if names != {} {
      ListedIs(names, First(names).value);
    }
  }

  /** Names given out in a row come off the front of what is left. */
  lemma {:induction false} EmittedManyIs(names: set<string>, s: Scan, n: nat)
    ensures var t := EmittedMany(names, s, n);
            && |s.emitted| <= |t.emitted| && t.emitted[..|s.emitted|] == s.emitted
            && t.present == s.present
            && Listed(names, s.at) == t.emitted[|s.emitted|..] + Listed(names, t.at)
    decreases n
  {
    if n > 0 {
      EmittedManyIs(names, s, n - 1);
      var t := EmittedMany(names, s, n - 1);
      if t.at.Some? {
        var l := Listed(names, Next(names, t.at.value));
        assert Listed(names, t.at) == [t.at.value] + l;
        assert (t.emitted + [t.at.value])[|s.emitted|..] == t.emitted[|s.emitted|..] + [t.at.value];
        assert (t.emitted + [t.at.value])[..|s.emitted|] == s.emitted;
        assert t.emitted[|s.emitted|..] + ([t.at.value] + l) == t.emitted[|s.emitted|..] + [t.at.value] + l;
      }
    }
  }

  // ---------- what a buffer holds ----------

  // A directory entry in the caller's buffer: where it starts, and its d_reclen and d_name.
  datatype Dirent = Dirent(at: nat, reclen: nat, name: string)

  function NamesOf(out: seq<Dirent>): (names: seq<string>)
    ensures |names| == |out| && forall i :: 0 <= i < |out| ==> names[i] == out[i].name
  {
    seq(|out|, i requires 0 <= i < |out| => out[i].name)
  }

  /** The buffer space that the entries take: each a header, the name, and a final zero. */
  function End(header: nat, out: seq<Dirent>): nat {
    if out == [] then 0 else out[|out| - 1].at + header + |out[|out| - 1].name| + 1
  }

  /** The entries follow each other from the start of the buffer and stay inside it. */
  ghost predicate LaidOut(header: nat, out: seq<Dirent>, size: nat) {
    && (out != [] ==> out[0].at == 0)
    && (forall i, j {:trigger out[i], out[j]} :: 0 <= i && j == i + 1 && j < |out| ==> out[j].at == out[i].at + header + |out[i].name| + 1)
    && (forall i :: 0 <= i < |out| ==> out[i].reclen == (header + |out[i].name| + 1) % 0x1_0000)
    && (forall i :: 0 <= i < |out| ==> out[i].at + header + |out[i].name| + 1 <= size)
  }

  lemma LaidOutMore(header: nat, out: seq<Dirent>, d: Dirent, size: nat)
    requires LaidOut(header, out, size) && d.at == End(header, out)
    requires d.reclen == (header + |d.name| + 1) % 0x1_0000 && d.at + header + |d.name| + 1 <= size
    ensures LaidOut(header, out + [d], size) && End(header, out + [d]) == d.at + header + |d.name| + 1
    ensures NamesOf(out + [d]) == NamesOf(out) + [d.name]
  {
  }

  /** Writes the entry for a name that there is room for. */
  method PutEntry(header: nat, out: seq<Dirent>, name: string, size: nat) returns (r: seq<Dirent>)
    requires LaidOut(header, out, size) && End(header, out) + header + |name| + 1 <= size
    ensures LaidOut(header, r, size) && End(header, r) == End(header, out) + header + |name| + 1
    ensures |r| == |out| + 1 && NamesOf(r) == NamesOf(out) + [name]
  {
    var dirent := Dirent(End(header, out), (header + |name| + 1) % 0x1_0000, name);
    LaidOutMore(header, out, dirent, size);
    r := out + [dirent];
  }
}
