/**
 The AHCI disk as a byte device (nop/tasks/ahci.c:201-326): an unaligned head, whole sectors, and
 a tail that is read, modified and written back.  A sector transfer is all or nothing; whether
 the next one works is told by an oracle.
 */
module Ahci {
  import opened Bytes
  import opened Seek

  /** `sector_width` is always 9 (nop/tasks/ahci.c:171). */
  const SECTOR := 512

  /**
   The sector count of a command has 16 bits (nop/tasks/ahci.c:121, 144).  A count of 0 is taken to
   move nothing; a drive may read it as 65536 instead, and then carry exactly that many sectors.
   */
  const MAX_COUNT := 0x1_0000

  // ----- How a request of `r` bytes at `offset` is cut up -----

  function Head(offset: nat, r: nat): (h: nat)
    ensures h <= r
  {
    if offset % SECTOR == 0 then 0 else Min(SECTOR - offset % SECTOR, r)
  }

  function Tail(offset: nat, r: nat): (t: nat)
    ensures Head(offset, r) + t <= r
  {
    (r - Head(offset, r)) % SECTOR
  }

  function Middle(offset: nat, r: nat): (n: nat)
    ensures Head(offset, r) + n + Tail(offset, r) == r && n % SECTOR == 0
  {
    r - Head(offset, r) - Tail(offset, r)
  }

  /** The bytes that one command for `n` bytes of whole sectors really moves. */
  function Carried(n: nat): (c: nat)
    ensures c <= n
    ensures n % SECTOR == 0 ==> (c == n <==> n / SECTOR < MAX_COUNT)
  {
    n / SECTOR % MAX_COUNT * SECTOR
  }

  // ----- How far a request gets -----

  /** Transfers made in all, bytes done, and where the cursor ends up. */
  datatype Progress = Progress(transfers: nat, done: nat, offset: nat)

  /**
   A request of `r` bytes at `offset`, when the next transfer is number `t`.  An unaligned head and
   a tail take `k` transfers each: one to read a sector, and for a write one more to put it back.
   The middle part takes one.
   */
  ghost function Request(fails: nat -> bool, t: nat, k: nat, offset: nat, r: nat): (p: Progress)
    requires 1 <= k <= 2
    ensures p.done <= r
  {
    var h, from := Head(offset, r), r - Tail(offset, r);
    if offset % SECTOR == 0 then AfterHead(fails, t, k, offset, h, from, r)
    else if fails(t) then Progress(t + 1, 0, offset)
    else if fails(t + k - 1) then Progress(t + k, 0, offset)
    else AfterHead(fails, t + k, k, offset, h, from, r)
  }

  /** The part from byte `h` on: whole sectors up to byte `from`, and the tail up to byte `r`. */
  ghost function AfterHead(fails: nat -> bool, t: nat, k: nat, offset: nat, h: nat, from: nat, r: nat): (p: Progress)
    requires 1 <= k <= 2 && h <= from <= r
    ensures p.done <= r
  {
    if fails(t) then Progress(t + 1, h, offset + h)
    else if from == r then Progress(t + 1, r, offset + from)
    else if fails(t + 1) then Progress(t + 2, from, offset + from)
    else if fails(t + k) then Progress(t + 1 + k, from, offset + from)
    else Progress(t + 1 + k, r, offset + from)
  }

  ghost predicate AllWork(fails: nat -> bool, from: nat, n: nat) {
    forall i :: from <= i < from + n ==> !fails(i)
  }

  /** If every transfer works, the whole request is done. */
  lemma WholeRequestDone(fails: nat -> bool, t: nat, k: nat, offset: nat, r: nat)
    requires 1 <= k <= 2 && AllWork(fails, t, 5)
    ensures Request(fails, t, k, offset, r).done == r
  {
  }

  /**
   The cursor after a request that was wholly done stands at its end exactly when the head was all
   of it or it ends at a sector boundary; otherwise it stands at the start of the last sector.
   */
  lemma CursorAfterRequest(fails: nat -> bool, t: nat, k: nat, offset: nat, r: nat)
    requires 1 <= k <= 2 && AllWork(fails, t, 5)
    ensures var p := Request(fails, t, k, offset, r);
            && (p.offset == offset + r
                <==> (offset % SECTOR != 0 && r <= SECTOR - offset % SECTOR) || (offset + r) % SECTOR == 0)
            && (p.offset != offset + r ==> p.offset == (offset + r) / SECTOR * SECTOR)
  {
    assert Request(fails, t, k, offset, r).offset == offset + r - Tail(offset, r);
    assert Head(offset, r) != r ==> Tail(offset, r) == (offset + r) % SECTOR;
  }

  /**
   The cursor after any request, whatever failed: behind the bytes done, unless the whole request was
   done and went past its head; then it is rounded down to a sector.
   */
  lemma CursorAfterAny(fails: nat -> bool, t: nat, k: nat, offset: nat, r: nat)
    requires 1 <= k <= 2
    ensures var p := Request(fails, t, k, offset, r);
            p.offset ==
            if p.done == r && !(offset % 512 != 0 && offset % 512 + r <= 512) then (offset + r) / 512 * 512
            else offset + p.done
  {
    var h, from := Head(offset, r), r - Tail(offset, r);
    assert h != r ==> Tail(offset, r) == (offset + r) % SECTOR;
    assert h == r ==> from == r;
    assert offset % 512 == 0 && r == 0 ==> offset / 512 * 512 == offset;
    var p := Request(fails, t, k, offset, r);
    hide Head, Tail;
    assert p.offset == offset + p.done || (p.done == r && p.offset == offset + from);
  }

  /**
   A request makes its transfers one after the other up to the first that fails, and counts what was
   done before it.
   */
  lemma RequestStopsAtFailure(fails: nat -> bool, t: nat, k: nat, offset: nat, r: nat)
    requires 1 <= k <= 2
    ensures var lead, h := if offset % 512 == 0 then 0 else k, if offset % 512 == 0 then 0 else Min(512 - offset % 512, r);
            var tail := (r - h) % 512;
            var p := Request(fails, t, k, offset, r);
            var made := p.transfers - t;
            && 1 <= made <= lead + 1 + (if tail == 0 then 0 else k)
            && (forall i :: t <= i < p.transfers - 1 ==> !fails(i))
            && if fails(p.transfers - 1)
               then p.done == if made <= lead then 0 else if made == lead + 1 then h else r - tail
               else p.done == r && made == lead + 1 + if tail == 0 then 0 else k
  {
  }

  // ----- What ends up where -----

  /**
   `target` after the first `done` bytes of a request of `r` bytes were moved to it from position
   `to` on.  A middle part of 65536 sectors or more is carried short.
   */
  ghost function Moved(target: seq<byte>, to: nat, data: seq<byte>, offset: nat, r: nat, done: nat): (m: seq<byte>)
    requires done <= r <= |data| && to + r <= |target|
    ensures |m| == |target|
  {
    var h, from := Head(offset, r), r - Tail(offset, r);
    if done <= h then Blit(target, to, data[..done])
    else
      var front := Blit(Blit(target, to, data[..h]), to + h, data[h..h + Carried(from - h)]);
      if done <= from then front else Blit(front, to + from, data[from..done])
  }

  /** A part of the data done: nothing, the head, all but the tail, or everything. */
  predicate IsStage(offset: nat, r: nat, done: nat) {
    done == 0 || done == Head(offset, r) || done == r - Tail(offset, r) || done == r
  }

  lemma RequestStopsAtStage(fails: nat -> bool, t: nat, k: nat, offset: nat, r: nat)
    requires 1 <= k <= 2
    ensures IsStage(offset, r, Request(fails, t, k, offset, r).done)
  {
  }

  lemma MiddleIsCarried(offset: nat, r: nat)
    ensures var h, from := Head(offset, r), r - Tail(offset, r);
            && h <= from <= r && Carried(from - h) == Carried(r - h) <= from - h
            && (Middle(offset, r) / SECTOR < MAX_COUNT ==> Carried(from - h) == from - h)
  {
  }

  /** The bytes done are the first bytes of the data, and no other byte of the target changes. */
  lemma MovedIsBlit(target: seq<byte>, to: nat, data: seq<byte>, offset: nat, r: nat, done: nat)
    requires done <= r <= |data| && to + r <= |target| && IsStage(offset, r, done)
    requires done <= Head(offset, r) || Middle(offset, r) / SECTOR < MAX_COUNT
    ensures Moved(target, to, data, offset, r, done) == Blit(target, to, data[..done])
  {
    hide Head, Tail, Middle, Carried, Blit;
    var h, from := Head(offset, r), r - Tail(offset, r);
    MiddleIsCarried(offset, r);
    if done > h {
      BlitTwice(target, to, data[..h], data[h..from]);
      assert data[..h] + data[h..from] == data[..from];
      if done > from {
        BlitTwice(target, to, data[..from], data[from..done]);
        assert data[..from] + data[from..done] == data[..done];
      }
    }
  }

  /** The bytes counted by a request are exactly those moved. */
  ghost predicate CountsWhatMoved(fails: nat -> bool, t: nat, k: nat, target: seq<byte>, to: nat, data: seq<byte>, offset: nat)
    requires 1 <= k <= 2 && to + |data| <= |target|
  {
    var done := Request(fails, t, k, offset, |data|).done;
    Moved(target, to, data, offset, |data|, done) == Blit(target, to, data[..done])
  }

  /**
   A request refines a flat copy, for any contents and any failures, exactly when its middle part
   has fewer than 65536 sectors.
   */
  lemma FlatCopyExactly(length: nat, to: nat, t: nat, k: nat, offset: nat, r: nat)
    requires 1 <= k <= 2 && to + r <= length
    ensures (forall fails: nat -> bool, target: seq<byte>, data: seq<byte> | |target| == length && |data| == r ::
               CountsWhatMoved(fails, t, k, target, to, data, offset))
            <==> Middle(offset, r) / SECTOR < MAX_COUNT
  {
    hide Moved, Request, Blit;
    if Middle(offset, r) / SECTOR < MAX_COUNT {
      forall fails: nat -> bool, target: seq<byte>, data: seq<byte> | |target| == length && |data| == r
        ensures CountsWhatMoved(fails, t, k, target, to, data, offset)
      {
        RequestStopsAtStage(fails, t, k, offset, r);
        MovedIsBlit(target, to, data, offset, r, Request(fails, t, k, offset, r).done);
      }
    } else {
      var never: nat -> bool := _ => false;
      WholeRequestDone(never, t, k, offset, r);
      ShortMiddle(length, to, offset, r, r);
      var target: seq<byte>, data: seq<byte> :|
        |target| == length && |data| == r && Moved(target, to, data, offset, r, r) != Blit(target, to, data[..r]);
      assert !CountsWhatMoved(never, t, k, target, to, data, offset);
    }
  }

  /** Some byte of a middle part that was carried short is not moved. */
  lemma ShortMiddle(length: nat, to: nat, offset: nat, r: nat, done: nat)
    requires done <= r && to + r <= length && IsStage(offset, r, done)
    requires done > Head(offset, r) && Middle(offset, r) / SECTOR >= MAX_COUNT
    ensures exists target: seq<byte>, data: seq<byte> ::
              |target| == length && |data| == r && Moved(target, to, data, offset, r, done) != Blit(target, to, data[..done])
  {
    hide Head, Tail, Carried, Middle, Blit;
    var h, from := Head(offset, r), r - Tail(offset, r);
    var target: seq<byte>, data: seq<byte> := seq(length, _ => 0), seq(r, _ => 1);
    var c := Carried(from - h);
    assert h + c < from <= done;
    ShortFront(target, to, data, h, c, from, done);
    assert Moved(target, to, data, offset, r, done)[to + h + c] == 0;
    assert Blit(target, to, data[..done])[to + h + c] == 1;
  }

  /** What has been moved when a request that got past its head comes to its end. */
  lemma MovedAfterHead(fails: nat -> bool, t: nat, k: nat, target: seq<byte>, to: nat, data: seq<byte>, offset: nat, r: nat)
    requires 1 <= k <= 2 && r <= |data| && to + r <= |target|
    ensures var h, from := Head(offset, r), r - Tail(offset, r);
            var head := Blit(target, to, data[..h]);
            var front := Blit(head, to + h, data[h..][..Carried(r - h)]);
            var done := AfterHead(fails, t, k, offset, h, from, r).done;
            Moved(target, to, data, offset, r, done) ==
            if fails(t) then head else if from < done then Blit(front, to + from, data[from..r]) else front
  {
    hide Head, Tail, Carried, Moved, Blit;
    MovedAfterParts(target, to, data, offset, r);
  }

  /** A head of `h` bytes stays within its sector, and within the disk. */
  ghost predicate HeadFits(offset: nat, h: nat, length: nat) {
    if offset % SECTOR == 0 then h == 0 else offset < length && offset % SECTOR + h <= SECTOR
  }

  /** After the head comes a sector boundary, and byte `from` of the data follows the last whole sector. */
  ghost predicate BodyFits(offset: nat, h: nat, from: nat, r: nat) {
    (h < r ==> (offset + h) % SECTOR == 0) && from == r - (r - h) % SECTOR
  }

  lemma Parts(offset: nat, r: nat, length: nat)
    requires length % SECTOR == 0 && offset + r <= length
    ensures HeadFits(offset, Head(offset, r), length)
    ensures BodyFits(offset, Head(offset, r), r - Tail(offset, r), r)
  {
  }

  /** What a request has moved after each of its parts. */
  lemma MovedAfterParts(target: seq<byte>, to: nat, data: seq<byte>, offset: nat, r: nat)
    requires r <= |data| && to + r <= |target|
    ensures var h, from := Head(offset, r), r - Tail(offset, r);
            var head := Blit(target, to, data[..h]);
            var front := Blit(head, to + h, data[h..][..Carried(r - h)]);
            && (h == 0 ==> head == target)
            && Moved(target, to, data, offset, r, 0) == target
            && Moved(target, to, data, offset, r, h) == head
            && Moved(target, to, data, offset, r, from) == front
            && Moved(target, to, data, offset, r, r) == if from == r then front else Blit(front, to + from, data[from..r])
  {
    hide Head, Tail, Carried, Blit;
    MiddleIsCarried(offset, r);
    var h, from := Head(offset, r), r - Tail(offset, r);
    assert data[h..][..Carried(r - h)] == data[h..h + Carried(r - h)];
    BlitNothing(target, to);
    assert data[..0] == [];
    if from == h {
      assert data[h..h + Carried(r - h)] == [];
      BlitNothing(Blit(target, to, data[..h]), to + h);
    }
  }

  /** The first byte after a middle part that was carried short. */
  lemma ShortFront(target: seq<byte>, to: nat, data: seq<byte>, h: nat, c: nat, from: nat, done: nat)
    requires h + c < from <= done <= |data| && to + done <= |target|
    ensures var front := Blit(Blit(target, to, data[..h]), to + h, data[h..h + c]);
            && front[to + h + c] == target[to + h + c]
            && Blit(front, to + from, data[from..done])[to + h + c] == target[to + h + c]
            && Blit(target, to, data[..done])[to + h + c] == data[h + c]
  {
  }

  /** Bytes within one sector. */
  lemma BytesOfSector(m: seq<byte>, at: nat, n: nat)
    requires at % SECTOR + n <= SECTOR && at < |m| && |m| % SECTOR == 0
    ensures at + n <= |m| && (at / SECTOR + 1 % MAX_COUNT) * SECTOR <= |m|
    ensures m[at / SECTOR * SECTOR..(at / SECTOR + 1 % MAX_COUNT) * SECTOR][at % SECTOR..at % SECTOR + n] == m[at..at + n]
  {
    var start := at / SECTOR * SECTOR;
    assert start + at % SECTOR == at;
    SliceOfSlice(m, start, start + SECTOR, at % SECTOR, at % SECTOR + n);
  }

  /** What a read does once its head is settled. */
  lemma ReadRequest(fails: nat -> bool, t: nat, offset: nat, r: nat)
    ensures var h, from := Head(offset, r), r - Tail(offset, r);
            Request(fails, t, 1, offset, r) ==
            if offset % SECTOR == 0 then AfterHead(fails, t, 1, offset, h, from, r)
            else if fails(t) then Progress(t + 1, 0, offset)
            else AfterHead(fails, t + 1, 1, offset, h, from, r)
  {
    hide AfterHead, Head, Tail;
  }

  /** Where the last whole sector ends. */
  lemma EndOfMiddle(at: nat, h: nat, from: nat, r: nat)
    requires h <= r && BodyFits(at, h, from, r)
    ensures var whole := (r - h) - (r - h) % SECTOR;
            && from == h + whole <= r && r - from < SECTOR && (from < r ==> (at + from) % SECTOR == 0)
            && (h < r ==> (at + h) % SECTOR == 0)
  {
  }

  /** The sectors that a request for its middle part is given. */
  lemma SectorsOfMiddle(m: seq<byte>, at: nat, h: nat, r: nat)
    requires h <= r && at + r <= |m| && (h < r ==> (at + h) % SECTOR == 0)
    ensures var lba, count := (at + h) / SECTOR, (r - h) / SECTOR % MAX_COUNT;
            && (lba + count) * SECTOR <= |m|
            && m[lba * SECTOR..(lba + count) * SECTOR] == m[at..at + r][h..][..Carried(r - h)]
  {
    var lba, c := (at + h) / SECTOR, Carried(r - h);
    assert (lba + (r - h) / SECTOR % MAX_COUNT) * SECTOR == lba * SECTOR + c;
    if h < r {
      assert lba * SECTOR == at + h;
    }
    hide Carried;
    assert c <= r - h;
    assert m[at..at + r][h..] == m[at + h..at + r];
  }

  // ----- The device -----

  class Disk {
    const disk: array<byte>
    const fails: nat -> bool
    var transfers: nat
    var offset: nat

    ghost predicate Valid()
      reads this
    {
      disk.Length % SECTOR == 0 && offset <= disk.Length
    }

    constructor (disk: array<byte>, fails: nat -> bool)
      requires disk.Length % SECTOR == 0
      ensures Valid() && this.disk == disk && this.fails == fails
      ensures offset == 0 && transfers == 0
    {
      this.disk := disk;
      this.fails := fails;
      this.transfers := 0;
      this.offset := 0;
    }

    method SectorRead(lba: nat, count: nat) returns (ok: bool, bytes: seq<byte>)
      requires (lba + count % MAX_COUNT) * SECTOR <= disk.Length
      modifies this`transfers
      ensures ok == !fails(old(transfers)) && transfers == old(transfers) + 1
      ensures ok ==> bytes == disk[lba * SECTOR..(lba + count % MAX_COUNT) * SECTOR]
    {
      ok := !fails(transfers);
      transfers := transfers + 1;
      bytes := if ok then disk[lba * SECTOR..(lba + count % MAX_COUNT) * SECTOR] else [];
    }

    method SectorWrite(lba: nat, bytes: seq<byte>, count: nat) returns (ok: bool)
      requires (lba + count % MAX_COUNT) * SECTOR <= disk.Length
      requires count % MAX_COUNT * SECTOR <= |bytes|
      modifies this`transfers, disk
      ensures ok == !fails(old(transfers)) && transfers == old(transfers) + 1
      ensures disk[..] == if ok then Blit(old(disk[..]), lba * SECTOR, bytes[..count % MAX_COUNT * SECTOR]) else old(disk[..])
    {
      ok := !fails(transfers);
      transfers := transfers + 1;
      if ok {
        var start, n := lba * SECTOR, count % MAX_COUNT * SECTOR;
        forall i | 0 <= i < n {
          disk[start + i] := bytes[i];
        }
        assert disk[..] == Blit(old(disk[..]), start, bytes[..n]);
      }
    }

    /** Reads the sector at `at`, changes the bytes from there on, and writes it back. */
    method Patch(at: nat, bytes: seq<byte>) returns (ok: bool)
      requires Valid() && at < disk.Length && at % SECTOR + |bytes| <= SECTOR
      modifies this`transfers, disk
      ensures at + |bytes| <= disk.Length
      ensures ok == (!fails(old(transfers)) && !fails(old(transfers) + 1))
      ensures transfers == if fails(old(transfers)) then old(transfers) + 1 else old(transfers) + 2
      ensures disk[..] == if ok then Blit(old(disk[..]), at, bytes) else old(disk[..])
    {
      hide Blit;
      ghost var image := disk[..];
      var lba := at / SECTOR;
      PatchIsBlit(image, lba * SECTOR, SECTOR, at % SECTOR, bytes);
      var buffer;
      ok, buffer := SectorRead(lba, 1);
      if !ok {
        return;
      }
      assert buffer == image[lba * SECTOR..lba * SECTOR + SECTOR];
      buffer := Blit(buffer, at % SECTOR, bytes);
      ok := SectorWrite(lba, buffer, 1);
      assert buffer[..SECTOR] == buffer;
    }

    /** Whole sectors in one transfer. */
    method WriteSectors(data: seq<byte>, n: nat) returns (ok: bool)
      requires Valid() && offset + n <= disk.Length && n <= |data|
      requires n < SECTOR || offset % SECTOR == 0
      modifies this`transfers, disk
      ensures ok == !fails(old(transfers)) && transfers == old(transfers) + 1
      ensures disk[..] == if ok then Blit(old(disk[..]), offset, data[..Carried(n)]) else old(disk[..])
    {
      hide Blit;
      var lba, count := offset / SECTOR, n / SECTOR;
      if count == 0 {
        assert data[..Carried(n)] == [];
        BlitNothing(disk[..], lba * SECTOR);
        BlitNothing(disk[..], offset);
      }
      ok := SectorWrite(lba, data, count);
    }

    /** The last part of a write, from byte `from` of the data to byte `r`. */
    method WriteTail(data: seq<byte>, from: nat, r: nat) returns (done: nat)
      requires Valid() && from <= r <= |data| && r - from <= SECTOR && offset + (r - from) <= disk.Length
      requires from < r ==> offset % SECTOR == 0
      modifies this`transfers, disk
      ensures var t := old(transfers);
              if from == r then done == r && transfers == t
              else if fails(t) then done == from && transfers == t + 1
              else done == (if fails(t + 1) then from else r) && transfers == t + 2
      ensures disk[..] == if from < done then Blit(old(disk[..]), offset, data[from..r]) else old(disk[..])
    {
      hide Blit;
      if from == r {
        return r;
      }
      var ok := Patch(offset, data[from..r]);
      return if ok then r else from;
    }

    method Write(data: seq<byte>) returns (done: nat)
      requires Valid()
      modifies this`transfers, this`offset, disk
      ensures Valid()
      ensures var r := Min(|data|, disk.Length - old(offset));
              && Progress(transfers, done, offset) == Request(fails, old(transfers), 2, old(offset), r)
              && disk[..] == Moved(old(disk[..]), old(offset), data, old(offset), r, done)
    {
      hide Blit, Moved, Carried, Head, Tail, AfterHead, HeadFits, BodyFits;
      var r := Min(|data|, disk.Length - offset);
      ghost var at, image, t := offset, disk[..], transfers;
      var h := Head(offset, r);
      Parts(offset, r, disk.Length);
      MovedAfterParts(disk[..], offset, data, offset, r);
      ghost var from := r - Tail(offset, r);
      var ok := WriteHead(data[..h]);
      if !ok {
        return 0;
      }
      MovedAfterHead(fails, transfers, 2, image, at, data, at, r);
      done := WriteBody(data, at, h, from, r);
      assert Progress(transfers, done, offset) == Request(fails, t, 2, at, r);
      hide Request;
      assert disk[..] == Moved(image, at, data, at, r, done);
    }

    /** The head of a write, if the cursor is not at a sector boundary. */
    method WriteHead(bytes: seq<byte>) returns (ok: bool)
      requires Valid()
      requires HeadFits(offset, |bytes|, disk.Length)
      modifies this`transfers, this`offset, disk
      ensures Valid()
      ensures var t, at := old(transfers), old(offset);
              && ok == (at % SECTOR == 0 || (!fails(t) && !fails(t + 1)))
              && transfers == (if at % SECTOR == 0 then t else if fails(t) then t + 1 else t + 2)
              && offset == if ok then at + |bytes| else at
      ensures disk[..] == if ok then Blit(old(disk[..]), old(offset), bytes) else old(disk[..])
    {
      hide Blit;
      BlitNothing(disk[..], offset);
      if offset % SECTOR == 0 {
        return true;
      }
      ok := Patch(offset, bytes);
      if ok {
        offset := offset + |bytes|;
      }
    }

    /** The middle and the tail of a write, from byte `h` of the data to byte `r`. */
    method WriteBody(data: seq<byte>, ghost at: nat, h: nat, ghost from: nat, r: nat) returns (done: nat)
      requires Valid() && h <= r <= |data| && offset == at + h && at + r <= disk.Length
      requires BodyFits(at, h, from, r)
      modifies this`transfers, this`offset, disk
      ensures Valid()
      ensures Progress(transfers, done, offset) == AfterHead(fails, old(transfers), 2, at, h, from, r)
      ensures var front := Blit(old(disk[..]), at + h, data[h..][..Carried(r - h)]);
              disk[..] == if fails(old(transfers)) then old(disk[..])
                          else if from < done then Blit(front, at + from, data[from..r])
                          else front
    {
      hide Blit, Carried;
      var n := r - h;
      var ok := WriteSectors(data[h..], n);
      if !ok {
        return h;
      }
      offset := offset + (n - n % SECTOR);
      done := WriteTail(data, h + (n - n % SECTOR), r);
    }

    // ----- Reading -----

    /** The head of a read, if the cursor is not at a sector boundary. */
    method ReadHead(buffer: array<byte>, h: nat) returns (ok: bool)
      requires Valid() && buffer != disk && h <= buffer.Length && HeadFits(offset, h, disk.Length)
      modifies this`transfers, this`offset, buffer
      ensures Valid()
      ensures old(offset) + h <= disk.Length
      ensures var t, at := old(transfers), old(offset);
              && ok == (at % SECTOR == 0 || !fails(t))
              && transfers == (if at % SECTOR == 0 then t else t + 1)
              && offset == if ok then at + h else at
      ensures buffer[..] == if ok then Blit(old(buffer[..]), 0, disk[old(offset)..old(offset) + h]) else old(buffer[..])
    {
      hide Blit;
      BlitNothing(buffer[..], 0);
      if offset % SECTOR == 0 {
        assert disk[offset..offset] == [];
        return true;
      }
      BytesOfSector(disk[..], offset, h);
      var lba, within := offset / SECTOR, offset % SECTOR;
      var bytes;
      ok, bytes := SectorRead(lba, 1);
      if ok {
        CopyInto(buffer, 0, bytes[within..within + h]);
        offset := offset + h;
      }
    }

    /** The tail of a read: the first bytes of the sector at the cursor. */
    method ReadTail(buffer: array<byte>, from: nat, r: nat) returns (done: nat)
      requires Valid() && buffer != disk && from <= r <= buffer.Length && r - from < SECTOR
      requires offset + (r - from) <= disk.Length && (from < r ==> offset % SECTOR == 0)
      modifies this`transfers, buffer
      ensures var t := old(transfers);
              if from == r then done == r && transfers == t
              else done == (if fails(t) then from else r) && transfers == t + 1
      ensures buffer[..] == if from < done then Blit(old(buffer[..]), from, disk[offset..offset + (r - from)]) else old(buffer[..])
    {
      hide Blit;
      if from == r {
        return r;
      }
      BytesOfSector(disk[..], offset, r - from);
      var ok, bytes := SectorRead(offset / SECTOR, 1);
      if !ok {
        return from;
      }
      CopyInto(buffer, from, bytes[0..r - from]);
      return r;
    }

    /** The whole sectors of a read, from byte `h` of the request on. */
    method ReadSectors(buffer: array<byte>, ghost at: nat, h: nat, r: nat) returns (ok: bool)
      requires Valid() && buffer != disk && h <= r <= buffer.Length && offset == at + h && at + r <= disk.Length
      requires h < r ==> (at + h) % SECTOR == 0
      modifies this`transfers, buffer
      ensures ok == !fails(old(transfers)) && transfers == old(transfers) + 1
      ensures buffer[..] == if ok then Blit(old(buffer[..]), h, disk[at..at + r][h..][..Carried(r - h)]) else old(buffer[..])
    {
      hide Blit, Carried;
      SectorsOfMiddle(disk[..], at, h, r);
      var bytes;
      ok, bytes := SectorRead(offset / SECTOR, (r - h) / SECTOR);
      if ok {
        CopyInto(buffer, h, bytes);
      }
    }

    /** The middle and the tail of a read, from byte `h` of the request to byte `r`. */
    method ReadBody(buffer: array<byte>, ghost at: nat, h: nat, ghost from: nat, r: nat) returns (done: nat)
      requires Valid() && buffer != disk && h <= r <= buffer.Length && offset == at + h && at + r <= disk.Length
      requires BodyFits(at, h, from, r)
      modifies this`transfers, this`offset, buffer
      ensures Valid()
      ensures Progress(transfers, done, offset) == AfterHead(fails, old(transfers), 1, at, h, from, r)
      ensures var data := disk[at..at + r];
              var front := Blit(old(buffer[..]), h, data[h..][..Carried(r - h)]);
              buffer[..] == if fails(old(transfers)) then old(buffer[..])
                            else if from < done then Blit(front, from, data[from..r])
                            else front
    {
      hide Blit, Carried, BodyFits;
      EndOfMiddle(at, h, from, r);
      SliceOfSlice(disk[..], at, at + r, from, r);
      var whole := (r - h) - (r - h) % SECTOR;
      var ok := ReadSectors(buffer, at, h, r);
      if !ok {
        return h;
      }
      offset := offset + whole;
      done := ReadTail(buffer, h + whole, r);
    }

    method Read(buffer: array<byte>, size: nat) returns (done: nat)
      requires Valid() && buffer != disk && size <= buffer.Length
      modifies this`transfers, this`offset, buffer
      ensures Valid()
      ensures var r := Min(size, disk.Length - old(offset));
              && Progress(transfers, done, offset) == Request(fails, old(transfers), 1, old(offset), r)
              && buffer[..] == Moved(old(buffer[..]), 0, disk[old(offset)..old(offset) + r], old(offset), r, done)
    {
      hide Blit, Moved, Carried, Head, Tail, AfterHead, HeadFits, BodyFits, Request;
      var r := Min(size, disk.Length - offset);
      ghost var at, image, t, data := offset, buffer[..], transfers, disk[offset..offset + r];
      var h := Head(offset, r);
      ReadRequest(fails, t, at, r);
      Parts(offset, r, disk.Length);
      MovedAfterParts(image, 0, data, offset, r);
      ghost var from := r - Tail(offset, r);
      SliceOfSlice(disk[..], at, at + r, 0, h);
      var ok := ReadHead(buffer, h);
      assert disk[at..at + h] == data[0..h] == data[..h];
      if !ok {
        return 0;
      }
      MovedAfterHead(fails, transfers, 1, image, 0, data, at, r);
      ghost var head, t1 := buffer[..], transfers;
      assert head == Blit(image, 0, data[..h]);
      done := ReadBody(buffer, at, h, from, r);
      assert disk[at..at + r] == data;
      ghost var front := Blit(head, h, data[h..][..Carried(r - h)]);
      assert buffer[..] == if fails(t1) then head else if from < done then Blit(front, from, data[from..r]) else front;
    }

    // ----- Seeking -----

    method SeekDevice(target: int, mode: Mode)
      requires Valid()
      modifies this`offset
      ensures Valid() && offset == SeekTo(0x8000_0000_0000_0000, old(offset), disk.Length, target, mode)
      ensures var place := if mode == Set then target else if mode == End then disk.Length + target else old(offset) + target;
              0 <= place <= disk.Length && place < 0x8000_0000_0000_0000 ==> offset == place
    {
      SeekCounts(0x8000_0000_0000_0000, offset, disk.Length, target, mode);
      offset := ComputeSeek(0x8000_0000_0000_0000, offset, disk.Length, target, mode);
    }

    /** What is written, and read back from the same place, is the same. */
    method WriteThenRead(data: seq<byte>, buffer: array<byte>) returns (done: nat)
      requires Valid() && buffer != disk && |data| <= buffer.Length && offset < 0x8000_0000_0000_0000
      requires AllWork(fails, transfers, 10)
      requires Middle(offset, Min(|data|, disk.Length - offset)) / SECTOR < MAX_COUNT
      modifies this`transfers, this`offset, disk, buffer
      ensures Valid() && done == Min(|data|, disk.Length - old(offset))
      ensures disk[..] == Blit(old(disk[..]), old(offset), data[..done])
      ensures buffer[..done] == data[..done] && buffer[done..] == old(buffer[done..])
    {
      hide Moved, Request;
      ghost var image, t := disk[..], transfers;
      var at := offset;
      var r := Min(|data|, disk.Length - at);
      WholeRequestDone(fails, t, 2, at, r);
      RequestTakes(fails, t, 2, at, r);
      MovedIsBlit(image, at, data, at, r, r);
      done := Write(data);
      SeekIsClamped(0x8000_0000_0000_0000, offset, disk.Length, at, Set);
      SeekDevice(at, Set);
      ghost var slice := disk[at..at + r];
      assert slice == data[..r];
      WholeRequestDone(fails, transfers, 1, at, r);
      MovedIsBlit(buffer[..], 0, slice, at, r, r);
      var got := Read(buffer, |data|);
      assert slice[..r] == slice;
    }
  }

  /** A request makes at most five transfers. */
  lemma RequestTakes(fails: nat -> bool, t: nat, k: nat, offset: nat, r: nat)
    requires 1 <= k <= 2
    ensures t < Request(fails, t, k, offset, r).transfers <= t + 5
  {
  }
}
