/** The order of names, and searches in a set of names ordered by it. */
module Names {
  import opened Basics

  /** a comes before b, character by character, as strcmp has it. */
  predicate Less(a: string, b: string)
    decreases |a|
  {
    b != "" && (a == "" || a[0] < b[0] || (a[0] == b[0] && Less(a[1..], b[1..])))
  }

  lemma {:induction false} LessIrreflexive(a: string)
    ensures !Less(a, a)
    decreases |a|
  {
    if a != "" { LessIrreflexive(a[1..]); }
  }

  lemma {:induction false} LessTransitive(a: string, b: string, c: string)
    requires Less(a, b) && Less(b, c)
    ensures Less(a, c)
    decreases |a|
  {
    if a != "" && a[0] == b[0] == c[0] { LessTransitive(a[1..], b[1..], c[1..]); }
  }

  lemma {:induction false} LessTotal(a: string, b: string)
    ensures a == b || Less(a, b) || Less(b, a)
    decreases |a|
  {
    if a != "" && b != "" && a[0] == b[0] {
      LessTotal(a[1..], b[1..]);
      assert a == [a[0]] + a[1..] && b == [b[0]] + b[1..];
    }
  }

  lemma LessAsymmetric(a: string, b: string)
    requires Less(a, b)
    ensures !Less(b, a)
  {
    if Less(b, a) {
      LessTransitive(a, b, a);
      LessIrreflexive(a);
    }
  }

  /** a and b agree up to i, where a ends and b does not or a has the smaller character. */
  predicate SmallerAt(a: string, b: string, i: nat) {
    && i <= |a| && i < |b| && a[..i] == b[..i]
    && (i == |a| || a[i] < b[i])
  }

  /** The order is that of strcmp: the first difference decides, and a proper prefix is less. */
  lemma {:induction false} LessIsStrcmp(a: string, b: string)
    ensures Less(a, b) <==> exists i: nat :: SmallerAt(a, b, i)
    decreases |a|
  {
    if a != [] && b != [] && a[0] == b[0] {
      LessIsStrcmp(a[1..], b[1..]);
      if i: nat :| SmallerAt(a, b, i) {
        assert a[1..i] == b[1..i];
        assert i > 0 && a[1..][..i - 1] == a[1..i] && b[1..][..i - 1] == b[1..i];
        assert SmallerAt(a[1..], b[1..], i - 1);
      }
      if i: nat :| SmallerAt(a[1..], b[1..], i) {
        assert a[..i + 1] == [a[0]] + a[1..][..i] && b[..i + 1] == [b[0]] + b[1..][..i];
        assert SmallerAt(a, b, i + 1);
      }
    } else if Less(a, b) {
      assert SmallerAt(a, b, 0);
    }
  }

  /** m is the first name of the set. */
  ghost predicate IsFirst(names: set<string>, m: string) {
    m in names && forall n <- names :: n == m || Less(m, n)
  }

  lemma {:induction false} FirstExists(names: set<string>) returns (m: string)
    requires names != {}
    ensures IsFirst(names, m)
    decreases names
  {
    var one :| one in names;
    m := one;
    var rest := names - {one};
    assert forall n <- names :: n == one || n in rest;
    if rest != {} {
      var k := FirstExists(rest);
      LessTotal(one, k);
      if Less(k, one) {
        m := k;
      } else {
        forall n | n in rest ensures Less(one, n) {
          if n != k { LessTransitive(one, k, n); }
        }
      }
    }
  }

  lemma HasFirst(names: set<string>)
    requires names != {}
    ensures exists m :: IsFirst(names, m)
  {
    var m := FirstExists(names);
  }

  /** The leftmost name, if there is one. */
  ghost function First(names: set<string>): (r: Option<string>)
    ensures r.Some? ==> IsFirst(names, r.value)
    ensures r.None? <==> names == {}
  {
    if names == {} then None
    else
      HasFirst(names);
      var m :| IsFirst(names, m);
      Some(m)
  }

  ghost function Above(names: set<string>, n: string): set<string> {
    set m | m in names && Less(n, m)
  }

  /** The name that follows n. */
  ghost function Next(names: set<string>, n: string): Option<string> {
    First(Above(names, n))
  }

  lemma FirstUnique(names: set<string>, m: string)
    requires IsFirst(names, m)
    ensures First(names) == Some(m)
  {
    var k := First(names).value;
    if k != m { LessAsymmetric(k, m); }
  }

  /** The name that follows n is the one above n with none in between. */
  lemma NextIff(names: set<string>, n: string, m: string)
    ensures Next(names, n) == Some(m) <==> m in names && Less(n, m) && forall k <- names :: Less(n, k) ==> k == m || Less(m, k)
    ensures Next(names, n) == None <==> forall k <- names :: !Less(n, k)
  {
    if m in names && Less(n, m) && forall k <- names :: Less(n, k) ==> k == m || Less(m, k) {
      FirstUnique(Above(names, n), m);
    }
    assert forall k <- names :: Less(n, k) ==> k in Above(names, n);
  }
}
