/** Byte sequences: the plain meaning of the two stores, attributes and files. */
module Bytes {

  type uint8 = x: int | 0 <= x < 0x100
  const TWO_TO_THE_32: int := 0x1_0000_0000
  type uint32 = x: int | 0 <= x < TWO_TO_THE_32

  function Zeros(n: nat): (z: seq<uint8>)
    ensures |z| == n && forall i :: 0 <= i < n ==> z[i] == 0
  {
    seq(n, i => 0)
  }

  function Max(a: int, b: int): (m: int)
    ensures a <= m && b <= m && (m == a || m == b)
  {
    if a < b then b else a
  }

  function Min(a: int, b: int): (m: int)
    ensures m <= a && m <= b && (m == a || m == b)
  {
    if a < b then a else b
  }

  /** Cut to n bytes, or filled up to n bytes with zeros. */
  function Resized(c: seq<uint8>, n: nat): (r: seq<uint8>)
    ensures |r| == n
  {
    if n <= |c| then c[..n] else c + Zeros(n - |c|)
  }

  /** `data` written over c at pos, after filling the gap there may be with zeros. */
  function Spliced(c: seq<uint8>, pos: nat, data: seq<uint8>): (r: seq<uint8>)
    ensures |r| == Max(|c|, pos + |data|)
  {
    var e := Resized(c, Max(|c|, pos + |data|));
    e[..pos] + data + e[pos + |data|..]
  }

  /** What a read of at most n bytes at pos delivers. */
  function Slice(c: seq<uint8>, pos: nat, n: nat): seq<uint8> {
    var from := Min(pos, |c|);
    c[from..from + Min(n, |c| - from)]
  }

  lemma SplicedAt(c: seq<uint8>, pos: nat, data: seq<uint8>, i: nat)
    requires i < |Spliced(c, pos, data)|
    ensures Spliced(c, pos, data)[i] == if pos <= i < pos + |data| then data[i - pos] else if i < |c| then c[i] else 0
  {
  }

  /** A read stops at the end of the bytes, and gives those from pos on. */
  lemma SliceAt(c: seq<uint8>, pos: nat, n: nat)
    ensures |Slice(c, pos, n)| == if pos >= |c| then 0 else if n <= |c| - pos then n else |c| - pos
    ensures forall i :: 0 <= i < |Slice(c, pos, n)| ==> Slice(c, pos, n)[i] == c[pos + i]
  {
  }

  /** Reading back what was written gives the same bytes. */
  lemma ReadBack(c: seq<uint8>, pos: nat, data: seq<uint8>)
    ensures Slice(Spliced(c, pos, data), pos, |data|) == data
  {
  }

  /** Bytes cut off do not come back: after extending again there are zeros. */
  lemma ShrinkThenExtend(c: seq<uint8>, m: nat, n: nat)
    requires m <= |c| && m <= n
    ensures Resized(Resized(c, m), n) == c[..m] + Zeros(n - m)
  {
  }

  /** The second of two writes of the same range wins. */
  lemma SplicedTwice(c: seq<uint8>, pos: nat, a: seq<uint8>, b: seq<uint8>)
    requires |a| == |b|
    ensures Spliced(Spliced(c, pos, a), pos, b) == Spliced(c, pos, b)
  {
    var x, y := Spliced(Spliced(c, pos, a), pos, b), Spliced(c, pos, b);
    forall i | 0 <= i < |x| ensures x[i] == y[i] {
      SplicedAt(Spliced(c, pos, a), pos, b, i);
      SplicedAt(c, pos, b, i);
      if i < |Spliced(c, pos, a)| { SplicedAt(c, pos, a, i); }
    }
  }
}
