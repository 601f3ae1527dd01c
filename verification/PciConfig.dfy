/**
 The PCI configuration space of an i386 as a byte device (nop/arch/i386/tasks/pci.c:13-138), over
 the address and data ports of the bus.
 */
module PciConfig {
  import opened Bytes
  import opened Seek

  /** 2^16 devices times 2^8 offsets. */
  const SIZE := 0x0100_0000
  const ENABLE := 0x8000_0000

  // ----- Dword addresses -----

  function RoundDown(offset: nat): (a: nat)
    ensures a <= offset < a + 4 && a % 4 == 0
  {
    offset - offset % 4
  }

  /** The dword that an access at `offset` selects; the device number keeps 16 bits only. */
  function DwordAt(offset: nat): (a: nat)
    ensures a + 4 <= SIZE && a % 4 == 0
    ensures offset < SIZE ==> a == RoundDown(offset)
  {
    RoundDown(offset % SIZE)
  }

  /** What the address port is given: the fields do not overlap, so that `|` is a sum. */
  function PortAddress(addr: nat, offset: nat): nat {
    ENABLE + addr * 256 + RoundDown(offset)
  }

  lemma FieldsAreApart(addr: bv32, offset: bv32)
    requires addr < 0x1_0000 && offset < 0x100
    ensures (0x8000_0000 | (addr << 8) | (offset & 0xFC)) == 0x8000_0000 + addr * 256 + (offset - offset % 4)
  {
  }

  /** Splitting an offset into device and register, and putting them together again. */
  lemma PortAddressSelects(offset: nat)
    ensures PortAddress(offset / 256 % 0x1_0000, offset % 256) == ENABLE + DwordAt(offset)
  {
    var turns, x := offset / SIZE, offset % SIZE;
    var device, register := x / 256, x % 256;
    assert offset == 0x1_0000 * 256 * turns + 256 * device + register;
    ModUnique(offset, 256, 0x1_0000 * turns + device, register);
    ModUnique(offset / 256, 0x1_0000, turns, device);
    assert x % 4 == register % 4;
  }

  // ----- What a write does -----

  /** The bytes `data[..h]` up to the next dword boundary, laid over the dword they belong to. */
  function PatchedDword(image: seq<byte>, at: nat, data: seq<byte>, h: nat): (value: seq<byte>)
    requires at < |image| == SIZE && h <= |data| && at % 4 + h <= 4
    ensures |value| == 4
  {
    Blit(image[RoundDown(at)..RoundDown(at) + 4], at % 4, data[..h])
  }

  /** A write that starts inside a dword and reaches its end. */
  predicate CrossesFirstDword(at: nat, r: nat) {
    at % 4 != 0 && at % 4 + r >= 4
  }

  /**
   The image after a write of `r` bytes.  If the unaligned head reaches the dword boundary, its
   dword is put into the next one.
   */
  function Written(image: seq<byte>, at: nat, data: seq<byte>, r: nat): (image': seq<byte>)
    requires |image| == SIZE && r <= |data| && at + r <= SIZE
    ensures |image'| == SIZE
  {
    if !CrossesFirstDword(at, r) then Blit(image, at, data[..r])
    else
      var h := 4 - at % 4;
      Blit(Blit(image, DwordAt(at + h), PatchedDword(image, at, data, h)), at + h, data[h..r])
  }

  /** The dword that gets the head: the next one, or the first one of all after the last. */
  lemma NextDword(at: nat)
    requires at < SIZE && at % 4 != 0
    ensures var boundary := at + (4 - at % 4);
            && boundary == RoundDown(at) + 4 <= SIZE
            && DwordAt(boundary) == if boundary == SIZE then 0 else boundary
  {
  }

  /** A write whose head crosses the boundary does not change the bytes of the head. */
  lemma HeadIsLost(image: seq<byte>, at: nat, data: seq<byte>, r: nat)
    requires |image| == SIZE && r <= |data| && at + r <= SIZE && CrossesFirstDword(at, r)
    ensures var boundary := RoundDown(at) + 4;
            Written(image, at, data, r)[at..boundary] == image[at..boundary]
  {
    NextDword(at);
    var boundary, value := RoundDown(at) + 4, PatchedDword(image, at, data, 4 - at % 4);
    hide RoundDown, DwordAt, PatchedDword;
    var image1 := Blit(image, DwordAt(boundary), value);
    assert image1[at..boundary] == image[at..boundary];
    assert Written(image, at, data, r) == Blit(image1, boundary, data[4 - at % 4..r]);
  }

  /**
   Instead, the dword it belongs to, with these bytes, is put where the next dword is, and the rest of
   the data goes over it.
   */
  lemma HeadGoesToNext(image: seq<byte>, at: nat, data: seq<byte>, r: nat, j: nat)
    requires |image| == SIZE && r <= |data| && at + r <= SIZE && CrossesFirstDword(at, r) && j < 4
    ensures var first, next := at - at % 4, if at - at % 4 + 4 == SIZE then 0 else at - at % 4 + 4;
            Written(image, at, data, r)[next + j] ==
            if next == first + 4 && next + j < at + r then data[next + j - at]
            else if j < at % 4 then image[first + j]
            else data[j - at % 4]
  {
    var h := 4 - at % 4;
    NextDword(at);
    PatchedAt(image, at, data, j);
    var next := DwordAt(at + h);
    hide PatchedDword, DwordAt, RoundDown, Blit;
    BlitOver(image, next, PatchedDword(image, at, data, h), at + h, data[h..r], next + j);
  }

  /** The dword with the head in it. */
  lemma PatchedAt(image: seq<byte>, at: nat, data: seq<byte>, j: nat)
    requires |image| == SIZE && at < SIZE && at % 4 != 0 && 4 - at % 4 <= |data| && j < 4
    ensures PatchedDword(image, at, data, 4 - at % 4)[j] ==
            if j < at % 4 then image[at - at % 4 + j] else data[j - at % 4]
  {
  }

  /** A write updates exactly the bytes addressed, for any contents, unless it crosses its first dword. */
  lemma WriteIsFlat(at: nat, r: nat)
    requires at + r <= SIZE
    ensures (forall image: seq<byte>, data: seq<byte> | |image| == SIZE && |data| == r ::
               Written(image, at, data, r) == Blit(image, at, data))
            <==> !CrossesFirstDword(at, r)
  {
    if !CrossesFirstDword(at, r) {
      forall image: seq<byte>, data: seq<byte> | |image| == SIZE && |data| == r
        ensures Written(image, at, data, r) == Blit(image, at, data)
      {
        assert data[..r] == data;
      }
    } else {
      var image: seq<byte>, data: seq<byte> := seq(SIZE, _ => 0), seq(r, _ => 1);
      HeadIsLost(image, at, data, r);
      assert image[at..RoundDown(at) + 4][0] == 0;
      assert Written(image, at, data, r)[at] == 0;
      assert Blit(image, at, data)[at] == 1;
      assert |image| == SIZE && |data| == r && Written(image, at, data, r) != Blit(image, at, data);
    }
  }

  /** The two stages of a write: the patched first dword, and everything after the head. */
  lemma WrittenInStages(image: seq<byte>, at: nat, data: seq<byte>, r: nat)
    requires |image| == SIZE && r <= |data| && at + r <= SIZE
    ensures at % 4 == 0 ==> Written(image, at, data, r) == Blit(image, at, data[0..r])
    ensures at % 4 != 0 ==>
              var h := Min(r, 4 - at % 4);
              Written(image, at, data, r) == Blit(Blit(image, DwordAt(at + h), PatchedDword(image, at, data, h)), at + h, data[h..r])
  {
    hide Blit;
    assert data[0..r] == data[..r];
    if at % 4 != 0 && !CrossesFirstDword(at, r) {
      assert RoundDown(at) + at % 4 == at && DwordAt(at + r) == RoundDown(at);
      assert data[r..r] == [];
      PatchIsBlit(image, RoundDown(at), 4, at % 4, data[..r]);
      BlitNothing(Blit(image, at, data[..r]), at + r);
    }
  }

  lemma AlignedDword(offset: nat)
    requires offset % 4 == 0 && offset < SIZE
    ensures offset + 4 <= SIZE && DwordAt(offset) == offset
  {
  }

  /** One more dword of a stretch. */
  lemma OneMoreDword(m: seq<byte>, at: nat, done: nat)
    requires at + done + 4 <= |m|
    ensures m[at..at + done] + m[at + done..at + done + 4] == m[at..at + done + 4]
  {
  }

  // ----- The device -----

  class Config {
    const image: array<byte>
    var latch: nat
    var offset: nat

    ghost predicate Valid()
      reads this
    {
      image.Length == SIZE && offset <= SIZE
    }

    constructor (image: array<byte>)
      requires image.Length == SIZE
      ensures Valid() && this.image == image && offset == 0
    {
      this.image := image;
      this.latch := 0;
      this.offset := 0;
    }

    /** `outd` on the data port. */
    method OutData(value: seq<byte>)
      requires image.Length == SIZE && |value| == 4 && ENABLE <= latch && latch - ENABLE + 4 <= SIZE
      modifies image
      ensures image[..] == Blit(old(image[..]), latch - ENABLE, value)
    {
      var a := latch - ENABLE;
      CopyInto(image, a, value);
    }

    method DwordWrite(addr: nat, register: nat, value: seq<byte>)
      requires image.Length == SIZE && |value| == 4 && addr < 0x1_0000 && register < 256
      modifies this`latch, image
      ensures image[..] == Blit(old(image[..]), addr * 256 + RoundDown(register), value)
    {
      latch := PortAddress(addr, register);
      OutData(value);
    }

    method DwordRead(addr: nat, register: nat) returns (value: seq<byte>)
      requires image.Length == SIZE && addr < 0x1_0000 && register < 256
      modifies this`latch
      ensures |value| == 4 && value == image[addr * 256 + RoundDown(register)..addr * 256 + RoundDown(register) + 4]
    {
      latch := PortAddress(addr, register);
      value := image[latch - ENABLE..latch - ENABLE + 4];
    }

    /** `pci_dword_read(offset >> 8, offset)`. */
    method ReadAt(at: nat) returns (value: seq<byte>)
      requires image.Length == SIZE
      modifies this`latch
      ensures |value| == 4 && value == image[DwordAt(at)..DwordAt(at) + 4]
    {
      PortAddressSelects(at);
      value := DwordRead(at / 256 % 0x1_0000, at % 256);
    }

    /** `pci_dword_write(offset >> 8, offset, value)`. */
    method WriteAt(at: nat, value: seq<byte>)
      requires image.Length == SIZE && |value| == 4
      modifies this`latch, image
      ensures image[..] == Blit(old(image[..]), DwordAt(at), value)
    {
      PortAddressSelects(at);
      DwordWrite(at / 256 % 0x1_0000, at % 256, value);
    }

    /** The byte loop at both ends of a write: up to a dword boundary, or the end of the data. */
    method PatchBytes(value: seq<byte>, data: seq<byte>, from: nat, r: nat) returns (patched: seq<byte>, done: nat)
      requires Valid() && |value| == 4 && from <= r <= |data| && offset + (r - from) <= SIZE
      modifies this`offset
      ensures done == Min(r - from, 4 - old(offset) % 4) && offset == old(offset) + done
      ensures patched == Blit(value, old(offset) % 4, data[from..from + done])
    {
      hide Blit;
      patched, done := value, 0;
      ghost var at := offset % 4;
      BlitNothing(value, at);
      assert data[from..from] == [];
      while done < r - from && (done == 0 || offset % 4 != 0)
        invariant 0 <= done <= Min(r - from, 4 - at) && offset == old(offset) + done
        invariant patched == Blit(value, at, data[from..from + done])
      {
        BlitOneMore(value, at, data[from..from + done], data[from + done]);
        assert data[from..from + done + 1] == data[from..from + done] + [data[from + done]];
        patched := patched[offset % 4 := data[from + done]];
        offset, done := offset + 1, done + 1;
      }
    }

    /** The dword loop in the middle of a write. */
    method WriteDwords(data: seq<byte>, from: nat, r: nat) returns (done: nat)
      requires Valid() && from <= r <= |data| && offset + (r - from) <= SIZE
      requires r - from >= 4 ==> offset % 4 == 0
      modifies this`offset, this`latch, image
      ensures done <= r - from < done + 4 && offset == old(offset) + done
      ensures done > 0 ==> offset % 4 == 0
      ensures image[..] == Blit(old(image[..]), old(offset), data[from..from + done])
    {
      hide Blit, DwordAt;
      done := 0;
      BlitNothing(image[..], offset);
      assert data[from..from] == [];
      while r - from - done >= 4
        invariant 0 <= done <= r - from && offset == old(offset) + done && (done > 0 ==> offset % 4 == 0)
        invariant image[..] == Blit(old(image[..]), old(offset), data[from..from + done])
      {
        AlignedDword(offset);
        OneMoreDword(data, from, done);
        var value := data[from + done..from + done + 4];
        BlitTwice(old(image[..]), old(offset), data[from..from + done], value);
        WriteAt(offset, value);
        offset, done := offset + 4, done + 4;
      }
    }

    /** The middle and the tail of a write, from byte `h` of the data to byte `r`. */
    method WriteBody(data: seq<byte>, h: nat, r: nat)
      requires Valid() && h <= r <= |data| && offset + (r - h) <= SIZE && (h < r ==> offset % 4 == 0)
      modifies this`offset, this`latch, image
      ensures offset == old(offset) + (r - h)
      ensures image[..] == Blit(old(image[..]), old(offset), data[h..r])
    {
      hide Blit, DwordAt;
      ghost var m, at := image[..], offset;
      var n := WriteDwords(data, h, r);
      BlitTwice(m, at, data[h..h + n], data[h + n..r]);
      assert data[h..h + n] + data[h + n..r] == data[h..r];
      if r - h - n != 0 {
        AlignedDword(offset);
        PatchIsBlit(image[..], offset, 4, 0, data[h + n..r]);
        var value := ReadAt(offset);
        var last;
        value, last := PatchBytes(value, data, h + n, r);
        WriteAt(offset, value);
      }
    }

    /** The head of a write; its dword goes to where the offset has got to. */
    method WriteHead(data: seq<byte>, r: nat) returns (h: nat)
      requires Valid() && r <= |data| && offset + r <= SIZE
      modifies this`offset, this`latch, image
      ensures h == if old(offset) % 4 == 0 then 0 else Min(r, 4 - old(offset) % 4)
      ensures offset == old(offset) + h
      ensures image[..] == if old(offset) % 4 == 0 then old(image[..])
                           else Blit(old(image[..]), DwordAt(old(offset) + h), PatchedDword(old(image[..]), old(offset), data, h))
    {
      hide Blit;
      h := 0;
      if offset % 4 != 0 {
        var value := ReadAt(offset);
        value, h := PatchBytes(value, data, 0, r);
        assert data[0..h] == data[..h];
        WriteAt(offset, value);
      }
    }

    method Write(data: seq<byte>)
      requires Valid()
      modifies this`offset, this`latch, image
      ensures Valid()
      ensures var r := Min(|data|, SIZE - old(offset));
              && offset == old(offset) + r
              && image[..] == Written(old(image[..]), old(offset), data, r)
    {
      hide Blit, Written, PatchedDword, DwordAt;
      var r := Min(|data|, SIZE - offset);
      WrittenInStages(image[..], offset, data, r);
      var h := WriteHead(data, r);
      WriteBody(data, h, r);
    }

    method ReadBytes(value: seq<byte>, buffer: array<byte>, from: nat, r: nat) returns (done: nat)
      requires Valid() && |value| == 4 && from <= r <= buffer.Length && offset + (r - from) <= SIZE
      modifies this`offset, buffer
      ensures done == Min(r - from, 4 - old(offset) % 4) && offset == old(offset) + done
      ensures buffer[..] == Blit(old(buffer[..]), from, value[old(offset) % 4..old(offset) % 4 + done])
    {
      hide Blit;
      done := 0;
      ghost var at, b := offset % 4, buffer[..];
      BlitNothing(b, from);
      assert value[at..at] == [];
      while done < r - from && (done == 0 || offset % 4 != 0)
        invariant 0 <= done <= Min(r - from, 4 - at) && offset == old(offset) + done
        invariant buffer[..] == Blit(b, from, value[at..at + done])
      {
        BlitOneMore(b, from, value[at..at + done], value[at + done]);
        assert value[at..at + done + 1] == value[at..at + done] + [value[at + done]];
        buffer[from + done] := value[offset % 4];
        offset, done := offset + 1, done + 1;
      }
    }

    method ReadDwords(buffer: array<byte>, from: nat, r: nat) returns (done: nat)
      requires Valid() && buffer != image && from <= r <= buffer.Length && offset + (r - from) <= SIZE
      requires r - from >= 4 ==> offset % 4 == 0
      modifies this`offset, this`latch, buffer
      ensures done <= r - from < done + 4 && offset == old(offset) + done
      ensures done > 0 ==> offset % 4 == 0
      ensures buffer[..] == Blit(old(buffer[..]), from, image[old(offset)..old(offset) + done])
    {
      hide Blit, DwordAt;
      done := 0;
      ghost var at, b, m := offset, buffer[..], image[..];
      BlitNothing(b, from);
      assert m[at..at] == [];
      while r - from - done >= 4
        invariant 0 <= done <= r - from && offset == at + done && (done > 0 ==> offset % 4 == 0)
        invariant image[..] == m && buffer[..] == Blit(b, from, m[at..at + done])
      {
        AlignedDword(offset);
        OneMoreDword(m, at, done);
        var value := ReadAt(offset);
        BlitTwice(b, from, m[at..at + done], value);
        CopyInto(buffer, from + done, value);
        offset, done := offset + 4, done + 4;
      }
    }

    /** The middle and the tail of a read, from byte `h` of the request to byte `r`. */
    method ReadBody(buffer: array<byte>, h: nat, r: nat)
      requires Valid() && buffer != image && h <= r <= buffer.Length
      requires offset + (r - h) <= SIZE && (h < r ==> offset % 4 == 0)
      modifies this`offset, this`latch, buffer
      ensures offset == old(offset) + (r - h)
      ensures buffer[..] == Blit(old(buffer[..]), h, image[old(offset)..old(offset) + (r - h)])
    {
      hide Blit;
      ghost var b, at, m := buffer[..], offset, image[..];
      var n := ReadDwords(buffer, h, r);
      BlitTwice(b, h, m[at..at + n], m[at + n..at + (r - h)]);
      assert m[at..at + n] + m[at + n..at + (r - h)] == m[at..at + (r - h)];
      if r - h - n != 0 {
        var value := ReadAt(offset);
        SliceOfSlice(m, at + n, at + n + 4, 0, r - h - n);
        var last := ReadBytes(value, buffer, h + n, r);
      }
    }

    /** The head of a read, up to the next dword boundary. */
    method ReadHead(buffer: array<byte>, r: nat) returns (h: nat)
      requires Valid() && buffer != image && r <= buffer.Length && offset + r <= SIZE
      modifies this`offset, this`latch, buffer
      ensures h <= r && offset == old(offset) + h && (h < r ==> offset % 4 == 0)
      ensures buffer[..] == Blit(old(buffer[..]), 0, image[old(offset)..old(offset) + h])
    {
      hide Blit;
      ghost var at, m := offset, image[..];
      h := 0;
      if offset % 4 != 0 {
        var value := ReadAt(offset);
        h := ReadBytes(value, buffer, 0, r);
        SliceOfSlice(m, RoundDown(at), RoundDown(at) + 4, at % 4, at % 4 + h);
      } else {
        BlitNothing(buffer[..], 0);
        assert m[at..at] == [];
      }
    }

    /** A read delivers the bytes at the cursor, for any alignment and length. */
    method Read(buffer: array<byte>, size: nat)
      requires Valid() && buffer != image && size <= buffer.Length
      modifies this`offset, this`latch, buffer
      ensures Valid()
      ensures var r := Min(size, SIZE - old(offset));
              && offset == old(offset) + r
              && buffer[..] == Blit(old(buffer[..]), 0, image[old(offset)..old(offset) + r])
    {
      hide Blit;
      var r := Min(size, SIZE - offset);
      ghost var b, at, m := buffer[..], offset, image[..];
      var h := ReadHead(buffer, r);
      BlitTwice(b, 0, m[at..at + h], m[at + h..at + r]);
      assert m[at..at + h] + m[at + h..at + r] == m[at..at + r];
      ReadBody(buffer, h, r);
    }

    method SeekDevice(target: int, mode: Mode)
      requires Valid()
      modifies this`offset
      ensures Valid() && offset == SeekTo(TWO_31, old(offset), SIZE, target, mode)
      ensures var place := if mode == Set then target else if mode == End then SIZE + target else old(offset) + target;
              0 <= place <= SIZE ==> offset == place
    {
      SeekCounts(TWO_31, offset, SIZE, target, mode);
      offset := ComputeSeek(TWO_31, offset, SIZE, target, mode);
    }
  }
}
