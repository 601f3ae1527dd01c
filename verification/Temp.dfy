/**
 Temporary devices, byte arrays with a cursor (nop/temp.c).
 */
module Temp {
  import opened Bytes
  import opened Seek

  class TempDevice {
    const data: array<byte>
    var offset: nat

    ghost predicate Valid()
      reads this
    {
      offset <= data.Length < TWO_32
    }

    constructor (size: nat)
      requires size < TWO_32
      ensures Valid() && fresh(data) && data.Length == size && offset == 0
    {
      data := new byte[size];
      offset := 0;
    }

    /** Bytes that do not fit are dropped. */
    method Write(bytes: seq<byte>) returns (n: nat)
      requires Valid()
      modifies this`offset, data
      ensures Valid() && n == Min(|bytes|, data.Length - old(offset)) && offset == old(offset) + n
      ensures data[..] == Blit(old(data[..]), old(offset), bytes[..n])
    {
      n := |bytes|;
      if n > data.Length - offset {
        n := data.Length - offset;
      }
      CopyInto(data, offset, bytes[..n]);
      offset := offset + n;
    }

    method Read(buffer: array<byte>, size: nat) returns (n: nat)
      requires Valid() && buffer != data && size <= buffer.Length
      modifies this`offset, buffer
      ensures Valid() && n == Min(size, data.Length - old(offset)) && offset == old(offset) + n
      ensures buffer[..] == Blit(old(buffer[..]), 0, data[old(offset)..offset])
    {
      n := size;
      if n > data.Length - offset {
        n := data.Length - offset;
      }
      CopyInto(buffer, 0, data[offset..offset + n]);
      offset := offset + n;
    }

    method SeekDevice(target: int, mode: Mode)
      requires Valid()
      modifies this`offset
      ensures Valid() && offset == SeekTo(TWO_31, old(offset), data.Length, target, mode)
      ensures var place := if mode == Set then target else if mode == End then data.Length + target else old(offset) + target;
              0 <= place <= data.Length && place < TWO_31 ==> offset == place
    {
      SeekCounts(TWO_31, offset, data.Length, target, mode);
      offset := ComputeSeek(TWO_31, offset, data.Length, target, mode);
    }

    /**
     What is written can be read back from where the write began, if a seek can get there; nothing
     else changes.
     */
    method WriteThenRead(bytes: seq<byte>, buffer: array<byte>) returns (n: nat)
      requires Valid() && buffer != data && |bytes| <= buffer.Length
      modifies this`offset, data, buffer
      ensures Valid()
      ensures AgreeOutside(old(data[..]), data[..], old(offset), old(offset) + Min(|bytes|, data.Length - old(offset)))
      ensures old(offset) < TWO_31 ==>
                && n == Min(|bytes|, data.Length - old(offset)) && offset == old(offset) + n
                && buffer[..n] == bytes[..n] && buffer[n..] == old(buffer[n..])
    {
      var at := offset;
      var written := Write(bytes);
      SeekIsClamped(TWO_31, offset, data.Length, at, Set);
      SeekDevice(at, Set);
      n := Read(buffer, written);
      assert at < TWO_31 ==> data[at..at + n] == bytes[..n];
    }
  }
}
