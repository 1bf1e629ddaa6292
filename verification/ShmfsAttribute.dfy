/** An attribute's data: a buffer that grows by half and keeps the bytes past its end zeroed
    when they come into use. */
module ShmfsAttribute {
  import opened Bytes

  datatype Status = OK | BadValue

  /** The capacity that EnsureSize asks for, in 32-bit arithmetic. */
  function NewCapacity(size: uint32): uint32 {
    (size + size / 2) % TWO_TO_THE_32
  }

  /** Half as much again must not wrap around: this is what a caller has to see to. */
  predicate Growable(size: int) {
    0 <= size && size + size / 2 < TWO_TO_THE_32
  }

  /** The new capacity holds the size asked for exactly when the sum does not wrap. */
  lemma CapacitySuffices(size: uint32)
    ensures size <= NewCapacity(size) <==> Growable(size)
  {
  }

  /** The least size for which the capacity wraps, and what it wraps to. */
  lemma CapacityWraps()
    ensures NewCapacity(0xAAAA_AAAB) == 0 && !Growable(0xAAAA_AAAB) && Growable(0xAAAA_AAAA)
  {
  }

  class Attribute {
    var fDataSize: uint32
    var fDataAllocSize: uint32
    var fData: array<uint8>
    // How many bytes EnsureSize has copied since the attribute was made.
    ghost var copied: nat

    ghost predicate Valid()
      reads this
    {
      && fData.Length == fDataAllocSize
      && fDataSize <= fDataAllocSize
      && copied <= 2 * fDataAllocSize
    }

    ghost function Contents(): seq<uint8>
      requires Valid()
      reads this, fData
    {
      fData[..fDataSize]
    }

    constructor ()
      ensures Valid() && Contents() == [] && copied == 0
      ensures fresh(fData)
    {
      fDataSize, fDataAllocSize, copied := 0, 0, 0;
      fData := new uint8[0];
    }

    /** The growth by half pays for the copying: over any run of calls no more than twice the
        final capacity is copied. That bound is part of Valid. */
    method EnsureSize(size: uint32)
      requires Valid() && (size <= fDataAllocSize || Growable(size))
      modifies `fDataAllocSize, `fData, `copied
      ensures Valid() && Contents() == old(Contents()) && fDataSize == old(fDataSize)
      ensures fDataAllocSize == if size <= old(fDataAllocSize) then old(fDataAllocSize) else size + size / 2
      ensures size <= fDataAllocSize
      ensures fData == old(fData) || fresh(fData)
    {
      if size > fDataAllocSize {
        var newSize := NewCapacity(size);
        var newData := new uint8[newSize];
        forall i | 0 <= i < fDataSize {
          newData[i] := fData[i];
        }
        copied := copied + fDataSize;
        fData := newData;
        fDataAllocSize := newSize;
      }
    }

    method WriteStat(size: uint32)
      requires Valid() && (size <= fDataAllocSize || Growable(size))
      modifies this, fData
      ensures Valid() && Contents() == Resized(old(Contents()), size)
      ensures fDataSize == size
      ensures forall i :: 0 <= i < size ==> fData[i] == if i < old(fDataSize) then old(fData[..fDataSize])[i] else 0
      ensures fData == old(fData) || fresh(fData)
    {
      EnsureSize(size);
      ghost var was := Contents();
      if size > fDataSize {
        forall i | fDataSize <= i < size {
          fData[i] := 0;
        }
      }
      fDataSize := size;
      assert Contents() == Resized(was, size);
    }

    method Write(pos: int, buffer: seq<uint8>) returns (st: Status, length: nat)
      requires Valid()
      requires pos < 0 || pos + |buffer| <= fDataAllocSize || Growable(pos + |buffer|)
      modifies this, fData
      ensures Valid()
      ensures st == BadValue <==> pos < 0
      ensures st == OK ==> length == |buffer| && Contents() == Spliced(old(Contents()), pos, buffer)
      ensures st == OK ==> fDataSize == if old(fDataSize) < pos + |buffer| then pos + |buffer| else old(fDataSize)
      ensures st == OK ==> forall i :: 0 <= i < fDataSize ==>
                fData[i] == if pos <= i < pos + |buffer| then buffer[i - pos]
                            else if i < old(fDataSize) then old(fData[..fDataSize])[i] else 0
      ensures st != OK ==> Contents() == old(Contents())
      ensures fData == old(fData) || fresh(fData)
    {
      length := |buffer|;
      if pos < 0 {
        return BadValue, length;
      }
      var newSize := pos + length;
      if newSize <= 0 {
        return OK, 0;
      }
      ghost var was := Contents();
      if newSize > fDataSize {
        WriteStat(newSize);
      }
      ghost var grown := Contents();
      forall i | 0 <= i < length {
        fData[pos + i] := buffer[i];
      }
      assert Contents() == grown[..pos] + buffer + grown[pos + length..];
      st := OK;
    }

    method Read(pos: int, length: nat) returns (st: Status, data: seq<uint8>)
      requires Valid()
      ensures st == BadValue <==> pos < 0
      ensures st == OK ==> data == Slice(Contents(), pos, length)
      ensures st == OK ==> |data| == if pos >= fDataSize then 0 else if length <= fDataSize - pos then length else fDataSize - pos
      ensures st == OK ==> forall i :: 0 <= i < |data| ==> data[i] == fData[pos + i]
    {
      if pos < 0 {
        return BadValue, [];
      }
      var from := Min(pos, fDataSize);
      var count := Min(length, fDataSize - from);
      data := fData[from..from + count];
      st := OK;
    }
  }
}
