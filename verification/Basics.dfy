/** Small definitions shared by the other modules. */
module Basics {

  datatype Option<+T> = None | Some(value: T)

  ghost function AnyOf<T>(s: set<T>): (e: T)
    requires s != {}
    ensures e in s
  {
    var e :| e in s; e
  }

  /** A non-empty set of integers has a member that `:|` can pick. */
  lemma HasMember(s: set<int>)
    requires s != {}
    ensures exists a :: a in s
  {
    var a := AnyOf(s);
  }

  lemma {:induction false} SubsetSize<T>(s: set<T>, t: set<T>)
    requires s <= t
    ensures |s| <= |t|
    decreases s
  {
    if s != {} {
      var e :| e in s;
      SubsetSize(s - {e}, t - {e});
    }
  }
}
