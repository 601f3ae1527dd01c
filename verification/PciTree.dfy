/**
 The directory of PCI functions (nop/tree/pci.c:35-145): its listing, opening an entry, and the
 window of 256 bytes that an opened entry is.
 */
module PciTree {
  import opened Bytes
  import opened CString
  import opened Digits
  import opened PciConfig
  import opened Seek
  import opened Temp

  // ----- Listing -----

  /** `list_t`: a name of 256 bytes and two integers, packed. */
  const RECORD := 264

  /** The record of one function; the name is its address in four hexadecimal digits. */
  ghost predicate IsRecord(record: seq<byte>, addr: nat) {
    && |record| == RECORD
    && record[..5] == DigitsOf(addr, 16, 4) + [0]
    && Load(record, 256) == 1 && Load(record, 260) == 0
  }

  /** The first `n` records of a listing. */
  ghost predicate IsListing(m: seq<byte>, addrs: seq<nat>, n: nat) {
    && n <= |addrs| && n * RECORD <= |m|
    && forall i: nat :: i < n ==> IsRecord(RecordAt(m, i), addrs[i])
  }

  function RecordAt(m: seq<byte>, i: nat): seq<byte> {
    if (i + 1) * RECORD <= |m| then m[i * RECORD..(i + 1) * RECORD] else []
  }

  /** The steps of `pci_list` for one record, on a buffer with any contents. */
  lemma RecordIsFilled(m: seq<byte>, addr: nat)
    requires |m| == RECORD
    ensures var named := Blit(m, 0, DigitsOf(addr, 16, 4) + [0]);
            named[4 := 0] == named && IsRecord(Store(Store(named, 256, 1), 260, 0), addr)
  {
    hide DigitsOf, Load, Store;
    var name := DigitsOf(addr, 16, 4) + [0];
    var named := Blit(m, 0, name);
    var opened1, closed := Store(named, 256, 1), Store(Store(named, 256, 1), 260, 0);
    LoadOfStore(named, 256, 1);
    LoadOfStore(opened1, 260, 0);
    LoadOfAgree(opened1, closed, 256);
    assert name == named[..5] == opened1[..5] == closed[..5];
  }

  method FillRecord(entry: array<byte>, addr: nat)
    requires entry.Length == RECORD
    modifies entry
    ensures IsRecord(entry[..], addr)
  {
    RecordIsFilled(entry[..], addr);
    hide Blit, DigitsOf, IsRecord, Store;
    UlongToStrAlign(addr, 16, entry, 0, 4);
    entry[4] := 0;
    StoreWord(entry, 256, 1);
    StoreWord(entry, 260, 0);
  }

  lemma ListingGrows(m: seq<byte>, addrs: seq<nat>, n: nat, record: seq<byte>)
    requires IsListing(m, addrs, n) && n < |addrs| && (n + 1) * RECORD <= |m| && IsRecord(record, addrs[n])
    ensures IsListing(Blit(m, n * RECORD, record), addrs, n + 1)
  {
    assert |record| == RECORD;
    hide IsRecord;
    var m' := Blit(m, n * RECORD, record);
    forall i: nat | i < n + 1
      ensures IsRecord(RecordAt(m', i), addrs[i])
    {
      assert RecordAt(m', i) == if i < n then RecordAt(m, i) else record;
    }
  }

  /** `pci_list`: a temporary device with one record for each function, in order. */
  method List(addrs: seq<nat>) returns (list: TempDevice)
    requires |addrs| * RECORD < TWO_32
    ensures fresh(list) && fresh(list.data) && list.Valid() && list.offset == 0
    ensures list.data.Length == |addrs| * RECORD && IsListing(list.data[..], addrs, |addrs|)
  {
    hide IsRecord, IsListing, Blit;
    list := new TempDevice(|addrs| * RECORD);
    var entry := new byte[RECORD];
    NothingListed(list.data[..], addrs);
    for i := 0 to |addrs|
      invariant list.Valid() && list.offset == i * RECORD && fresh(list.data)
      invariant IsListing(list.data[..], addrs, i)
    {
      FillRecord(entry, addrs[i]);
      ListingGrows(list.data[..], addrs, i, entry[..]);
      assert entry[..][..RECORD] == entry[..];
      var n := list.Write(entry[..]);
    }
    SeekIsClamped(TWO_31, list.offset, list.data.Length, 0, Set);
    list.SeekDevice(0, Set);
  }

  lemma NothingListed(m: seq<byte>, addrs: seq<nat>)
    ensures IsListing(m, addrs, 0)
  {
  }

  // ----- Reading a listing -----

  /** Opening the name in a record gives the address that was listed. */
  lemma RecordOpens(record: seq<byte>, addr: nat)
    requires IsRecord(record, addr) && addr < 0x1_0000
    ensures |record| == RECORD && record[0] != 0 && Parse(16, record, 4, 0) == addr
  {
    hide DigitsOf, Parse, Load, Pow;
    var digits := DigitsOf(addr, 16, 4);
    assert record[..4] == record[..5][..4] == digits;
    assert record == digits + record[4..];
    assert record[0] == digits[0] && digits[0] in digits;
    AlignedRoundTrip(addr, 16, 4, record[4..]);
    Pow16Of4();
  }

  lemma Pow16Of4()
    ensures Pow(16, 4) == 0x1_0000
  {
    assert Pow(16, 1) == 16;
    assert Pow(16, 2) == 256;
    assert Pow(16, 3) == 4096;
  }

  lemma CanOpen(record: seq<byte>, addr: nat)
    requires IsRecord(record, addr)
    ensures Load(record, 256) != 0
  {
  }

  /** The next record, if there is one. */
  method ReadRecord(list: TempDevice, entry: array<byte>, ghost i: nat) returns (n: nat)
    requires list.Valid() && entry != list.data && entry.Length == RECORD
    requires list.offset == i * RECORD && list.data.Length % RECORD == 0
    modifies list`offset, entry
    ensures list.Valid() && n == if (i + 1) * RECORD <= list.data.Length then RECORD else 0
    ensures n == RECORD ==> list.offset == (i + 1) * RECORD && entry[..] == RecordAt(list.data[..], i)
  {
    n := list.Read(entry, RECORD);
  }

  // ----- The window of one function -----

  /** `offset | (addr << 8)` for offsets up to 256. */
  function Combined(offset: nat, addr: nat): nat {
    if offset == 256 && addr % 2 == 1 then addr * 256 else addr * 256 + offset
  }

  lemma CombinedIsOr(offset: bv32, addr: bv32)
    requires offset <= 256 && addr < 0x1_0000
    ensures offset < 256 ==> (offset | (addr << 8)) == addr * 256 + offset
    ensures offset == 256 ==> (offset | (addr << 8)) == if addr & 1 == 1 then addr * 256 else addr * 256 + offset
  {
  }

  lemma NothingWritten(image: seq<byte>, at: nat)
    requires |image| == SIZE && at <= SIZE
    ensures Written(image, at, [], 0) == image
  {
  }

  class Function {
    const bus: Config
    const addr: nat
    var offset: nat

    ghost predicate Valid()
      reads this, bus
    {
      bus.Valid() && addr < 0x1_0000 && offset <= 256
    }

    constructor (bus: Config, addr: nat)
      requires bus.Valid() && addr < 0x1_0000
      ensures Valid() && this.bus == bus && this.addr == addr && offset == 0
    {
      this.bus := bus;
      this.addr := addr;
      this.offset := 0;
    }

    /** Delivers bytes of this function's registers; the cursor stays where it is. */
    method Read(buffer: array<byte>, size: nat)
      requires Valid() && buffer != bus.image && size <= buffer.Length
      modifies bus`offset, bus`latch, buffer
      ensures Valid()
      ensures var r := Min(size, 256 - offset);
              buffer[..] == Blit(old(buffer[..]), 0, bus.image[addr * 256 + offset..addr * 256 + offset + r])
    {
      hide Blit;
      var n := Min(size, 256 - offset);
      SeekIsClamped(TWO_31, bus.offset, SIZE, Combined(offset, addr), Set);
      bus.SeekDevice(Combined(offset, addr), Set);
      bus.Read(buffer, n);
      assert n == 0 ==> bus.image[addr * 256 + offset..addr * 256 + offset] == bus.image[bus.offset..bus.offset];
    }

    method Write(data: seq<byte>)
      requires Valid()
      modifies bus`offset, bus`latch, bus.image
      ensures Valid()
      ensures var r := Min(|data|, 256 - offset);
              bus.image[..] == Written(old(bus.image[..]), addr * 256 + offset, data[..r], r)
    {
      hide Blit;
      var n := Min(|data|, 256 - offset);
      SeekIsClamped(TWO_31, bus.offset, SIZE, Combined(offset, addr), Set);
      bus.SeekDevice(Combined(offset, addr), Set);
      NothingWritten(bus.image[..], bus.offset);
      NothingWritten(bus.image[..], addr * 256 + offset);
      bus.Write(data[..n]);
      assert data[..n][..0] == [] == data[..0];
    }

    method SeekDevice(target: int, mode: Mode)
      requires Valid()
      modifies this`offset
      ensures Valid() && offset == SeekTo(TWO_31, old(offset), 256, target, mode)
      ensures var place := if mode == Set then target else if mode == End then 256 + target else old(offset) + target;
              0 <= place <= 256 ==> offset == place
    {
      SeekCounts(TWO_31, offset, 256, target, mode);
      offset := ComputeSeek(TWO_31, offset, 256, target, mode);
    }
  }

  // ----- Opening all entries -----

  /**
   The device that `pci_open` adds: the window of the function whose address is parsed, at its
   start.  There is none for the empty path.
   */
  method Open(bus: Config, m: seq<byte>, path: nat) returns (device: Function?)
    requires bus.Valid() && path < |m| && (path + 4 <= |m| || HasNul(m, path))
    ensures device == null <==> m[path] == 0
    ensures device != null ==>
              && fresh(device) && device.Valid() && device.bus == bus && device.offset == 0
              && device.addr == Parse(16, m[path..], 4, 0) % 0x1_0000
  {
    if m[path] == 0 {
      return null;
    }
    var value := StrToUlong(16, m, path, 4);
    device := new Function(bus, value % 0x1_0000);
  }

  /** Windows of the first of these functions, in order, at their start. */
  ghost predicate AreOpened(devices: seq<Function>, bus: Config, addrs: seq<nat>)
    reads devices
  {
    |devices| <= |addrs| && forall i :: 0 <= i < |devices| ==>
      devices[i].bus == bus && devices[i].addr == addrs[i] && devices[i].offset == 0
  }

  lemma ListedRecord(m: seq<byte>, addrs: seq<nat>, i: nat)
    requires IsListing(m, addrs, |addrs|) && i < |addrs|
    ensures IsRecord(RecordAt(m, i), addrs[i])
  {
  }

  /** Opening the name in a record, if it says that it can be opened. */
  method OpenRecord(bus: Config, record: seq<byte>, ghost addr: nat) returns (device: Function?)
    requires bus.Valid() && IsRecord(record, addr) && addr < 0x1_0000
    ensures device != null && fresh(device) && device.bus == bus && device.addr == addr && device.offset == 0
  {
    hide IsRecord, Load, Parse, DigitsOf, CStr, HasNul;
    RecordOpens(record, addr);
    CanOpen(record, addr);
    if Load(record, 256) == 0 {
      return null;
    }
    assert record[0..] == record;
    device := Open(bus, record, 0);
  }

  /**
   Reading a listing record by record until one is short, and opening each name, gives windows of
   all functions in order (the loop of nop/tasks/ahci.c:476-499).
   */
  method OpenAll(bus: Config, list: TempDevice, ghost addrs: seq<nat>) returns (devices: seq<Function>)
    requires bus.Valid() && list.Valid() && list.offset == 0
    requires list.data.Length == |addrs| * RECORD && IsListing(list.data[..], addrs, |addrs|)
    requires forall i :: 0 <= i < |addrs| ==> addrs[i] < 0x1_0000
    modifies list`offset
    ensures |devices| == |addrs| && AreOpened(devices, bus, addrs)
  {
    hide IsRecord, IsListing, RecordAt;
    var entry := new byte[RECORD];
    ghost var m := list.data[..];
    devices := [];
    var n := ReadRecord(list, entry, 0);
    while n >= RECORD
      invariant list.Valid() && bus.Valid() && list.data[..] == m
      invariant AreOpened(devices, bus, addrs)
      invariant if n >= RECORD then
                  && |devices| < |addrs| && list.offset == (|devices| + 1) * RECORD
                  && entry[..] == RecordAt(m, |devices|)
                else |devices| == |addrs|
      decreases |addrs| - |devices|, n
    {
      ListedRecord(m, addrs, |devices|);
      var device := OpenRecord(bus, entry[..], addrs[|devices|]);
      if device != null {
        devices := devices + [device];
      }
      n := ReadRecord(list, entry, |devices|);
    }
  }

  /** Whatever is written over `at .. at + r`, the bytes outside of `base .. base + 256` stay. */
  ghost predicate StaysInside(base: nat, at: nat, r: nat)
    requires at + r <= SIZE
  {
    forall image: seq<byte>, data: seq<byte> | |image| == SIZE && |data| == r ::
      AgreeOutside(image, Written(image, at, data, r), base, base + 256)
  }

  /**
   A write in the window of one function leaves the registers of all others alone, whatever is
   written, unless it starts inside the last dword and reaches its end.
   */
  lemma WriteStaysInside(addr: nat, offset: nat, r: nat)
    requires addr < 0x1_0000 && offset + r <= 256
    ensures StaysInside(addr * 256, addr * 256 + offset, r) <==> offset <= 252 || offset + r < 256 || r == 0
  {
    hide Written, AgreeOutside;
    var base := addr * 256;
    var at := base + offset;
    if offset <= 252 || offset + r < 256 || r == 0 {
      forall image: seq<byte>, data: seq<byte> | |image| == SIZE && |data| == r
        ensures AgreeOutside(image, Written(image, at, data, r), base, base + 256)
      {
        InsideWindow(image, base, offset, data);
      }
    } else {
      var image: seq<byte>, data: seq<byte> := seq(SIZE, _ => 0), seq(r, _ => 1);
      SpillsOver(image, base, offset, data);
      assert |image| == SIZE && |data| == r && !AgreeOutside(image, Written(image, at, data, r), base, base + 256);
    }
  }

  lemma BlitsInside(m: seq<byte>, a: nat, s: seq<byte>, b: nat, t: seq<byte>, lo: nat, hi: nat)
    requires lo <= a && a + |s| <= hi <= |m| && lo <= b && b + |t| <= hi
    ensures AgreeOutside(m, Blit(m, a, s), lo, hi)
    ensures AgreeOutside(m, Blit(Blit(m, a, s), b, t), lo, hi)
  {
  }

  /** Dwords of a window that is a multiple of four bytes. */
  lemma DwordsOfWindow(base: nat, offset: nat)
    requires base % 256 == 0 && base + 256 <= SIZE && offset < 256
    ensures (base + offset) % 4 == offset % 4
    ensures var next := offset + (4 - offset % 4);
            next <= 256 && (offset % 4 != 0 && offset <= 252 ==> next <= 252)
            && (offset > 252 ==> next == 256 && offset % 4 != 0)
  {
    ModUnique(base + offset, 4, base / 256 * 64 + offset / 4, offset % 4);
  }

  lemma InsideWindow(image: seq<byte>, base: nat, offset: nat, data: seq<byte>)
    requires |image| == SIZE && base % 256 == 0 && base + 256 <= SIZE && offset + |data| <= 256
    requires offset <= 252 || offset + |data| < 256 || data == []
    ensures AgreeOutside(image, Written(image, base + offset, data, |data|), base, base + 256)
  {
    hide PatchedDword, RoundDown, DwordAt, Blit, AgreeOutside;
    var at, r := base + offset, |data|;
    assert data[..r] == data;
    if offset < 256 {
      DwordsOfWindow(base, offset);
    }
    if !CrossesFirstDword(at, r) {
      BlitsInside(image, at, data, at, [], base, base + 256);
    } else {
      var h := 4 - at % 4;
      NextDword(at);
      BlitsInside(image, at + h, PatchedDword(image, at, data, h), at + h, data[h..r], base, base + 256);
    }
  }

  /** The dword behind the window gets the bytes at the end of the data. */
  lemma SpillsOver(image: seq<byte>, base: nat, offset: nat, data: seq<byte>)
    requires |image| == SIZE && base % 256 == 0 && base + 256 <= SIZE
    requires 252 < offset && offset + |data| == 256 && data != []
    requires forall k :: 0 <= k < SIZE ==> image[k] == 0
    requires data[|data| - 1] != 0
    ensures !AgreeOutside(image, Written(image, base + offset, data, |data|), base, base + 256)
  {
    hide RoundDown, DwordAt;
    var at, r := base + offset, |data|;
    DwordsOfWindow(base, offset);
    NextDword(at);
    var next, value := DwordAt(at + r), PatchedDword(image, at, data, r);
    PatchedAt(image, at, data, 3);
    hide PatchedDword, Blit;
    BlitOver(image, next, value, at + r, data[r..r], next + 3);
  }
}
