/**
 Recognising a partitioned drive (nop/tree/mbr.c:95-190).
 */
module Mbr {
  import opened Bytes

  const GPT: byte := 0xEE

  datatype Entry = Entry(start: nat, count: nat, kind: byte)

  /** The slots of the mounted tree: the partitions, the rest with no device. */
  datatype Slot = Partition(id: int, entry: Entry) | NoDevice

  // ----- Which tables are accepted -----

  predicate Owns(e: Entry, sector: nat) {
    e.start <= sector < e.start + e.count
  }

  /** No sector belongs to both. */
  ghost predicate Apart(a: Entry, b: Entry) {
    forall sector: nat :: !(Owns(a, sector) && Owns(b, sector))
  }

  /** An entry by itself: both numbers zero, or a part of the drive with an ordinary type. */
  ghost predicate Sound(e: Entry, sectors: nat) {
    && (e.start == 0 <==> e.count == 0)
    && (forall sector: nat :: Owns(e, sector) ==> sector < sectors)
    && (e.count != 0 ==> e.kind != GPT)
  }

  ghost predicate AllApart(es: seq<Entry>) {
    forall i, j :: 0 <= i < j < |es| ==> Apart(es[i], es[j])
  }

  ghost predicate AllSound(es: seq<Entry>, sectors: nat) {
    forall i :: 0 <= i < |es| ==> Sound(es[i], sectors)
  }

  ghost predicate Partitioned(es: seq<Entry>, sectors: nat) {
    && (exists i :: 0 <= i < |es| && es[i].count != 0)
    && AllSound(es, sectors) && AllApart(es)
  }

  /** The entries that describe a partition, in order. */
  function Used(es: seq<Entry>): (r: seq<Entry>)
    ensures |r| <= |es|
    ensures forall k :: 0 <= k < |r| ==> r[k].count != 0
    ensures forall e :: e in r <==> e in es && e.count != 0
  {
    if es == [] then [] else Used(es[..|es| - 1]) + (if es[|es| - 1].count != 0 then [es[|es| - 1]] else [])
  }

  // ----- The tests of the code -----

  /** The two comparisons of the inner loop decide whether two partitions share a sector. */
  lemma OverlapTest(a: Entry, b: Entry)
    requires a.count != 0 && b.count != 0
    ensures a.start + a.count <= b.start || b.start + b.count <= a.start <==> Apart(a, b)
  {
    if a.start + a.count > b.start && b.start + b.count > a.start {
      var shared := if a.start <= b.start then b.start else a.start;
      assert Owns(a, shared) && Owns(b, shared);
    }
  }

  /** The tests of a single entry. */
  lemma SoundTest(e: Entry, sectors: nat)
    ensures Sound(e, sectors) <==>
            && (e.start == 0 <==> e.count == 0)
            && (e.count != 0 ==> e.start + e.count <= sectors && e.kind != GPT)
  {
    if e.count != 0 {
      assert Owns(e, e.start + e.count - 1);
    }
  }

  // ----- Tables grow by one entry -----

  ghost predicate ApartFrom(es: seq<Entry>, e: Entry) {
    forall i :: 0 <= i < |es| ==> Apart(es[i], e)
  }

  lemma ApartFromOneMore(es: seq<Entry>, last: Entry, e: Entry)
    ensures ApartFrom(es + [last], e) <==> ApartFrom(es, e) && Apart(last, e)
  {
    hide Apart;
    if ApartFrom(es + [last], e) {
      assert (es + [last])[|es|] == last;
      assert forall i :: 0 <= i < |es| ==> (es + [last])[i] == es[i];
    }
  }

  lemma AllApartOneMore(es: seq<Entry>, e: Entry)
    ensures AllApart(es + [e]) <==> AllApart(es) && ApartFrom(es, e)
  {
    hide Apart;
    var all := es + [e];
    if AllApart(all) {
      assert all[|es|] == e;
      assert forall i :: 0 <= i < |es| ==> all[i] == es[i];
    }
  }

  /** An entry is apart from all in a table if and only if it is from the used ones. */
  lemma {:induction false} ApartFromUsed(es: seq<Entry>, e: Entry)
    ensures ApartFrom(Used(es), e) <==> ApartFrom(es, e)
  {
    if es != [] {
      var front, last := es[..|es| - 1], es[|es| - 1];
      ApartFromUsed(front, e);
      assert es == front + [last];
      ApartFromOneMore(front, last, e);
      ApartFromOneMore(Used(front), last, e);
      assert last.count == 0 ==> Apart(last, e) && Used(front) + [] == Used(front);
    }
  }

  lemma EmptyIsApart(a: Entry, b: Entry)
    requires a.count == 0 || b.count == 0
    ensures Apart(a, b)
  {
  }

  /** Which tables are accepted, in numbers. */
  lemma PartitionedExactly(es: seq<Entry>, sectors: nat)
    ensures Partitioned(es, sectors) <==>
            && (exists i :: 0 <= i < |es| && es[i].count != 0)
            && (forall i :: 0 <= i < |es| ==>
                  && (es[i].start == 0 <==> es[i].count == 0)
                  && (es[i].count != 0 ==> es[i].start + es[i].count <= sectors && es[i].kind != 0xEE))
            && (forall i, j :: 0 <= i < j < |es| && es[i].count != 0 && es[j].count != 0 ==>
                  es[i].start + es[i].count <= es[j].start || es[j].start + es[j].count <= es[i].start)
  {
    hide Sound, Apart;
    forall i | 0 <= i < |es|
      ensures Sound(es[i], sectors) <==>
              && (es[i].start == 0 <==> es[i].count == 0)
              && (es[i].count != 0 ==> es[i].start + es[i].count <= sectors && es[i].kind != 0xEE)
    {
      SoundTest(es[i], sectors);
    }
    forall i, j | 0 <= i < j < |es|
      ensures Apart(es[i], es[j]) <==>
              || es[i].count == 0 || es[j].count == 0
              || es[i].start + es[i].count <= es[j].start || es[j].start + es[j].count <= es[i].start
    {
      if es[i].count == 0 || es[j].count == 0 {
        EmptyIsApart(es[i], es[j]);
      } else {
        OverlapTest(es[i], es[j]);
      }
    }
  }

  /** One more entry, sound by itself: the table stays apart if the entry is empty or apart from the used ones. */
  lemma TableStep(es: seq<Entry>, i: nat)
    requires i < |es| && AllApart(es[..i])
    ensures Used(es[..i + 1]) == Used(es[..i]) + if es[i].count != 0 then [es[i]] else []
    ensures AllApart(es[..i + 1]) <==> es[i].count == 0 || ApartFrom(Used(es[..i]), es[i])
    ensures AllApart(es) ==> AllApart(es[..i + 1])
  {
    assert es[..i + 1] == es[..i] + [es[i]];
    assert es[..i + 1][..i] == es[..i];
    AllApartOneMore(es[..i], es[i]);
    ApartFromUsed(es[..i], es[i]);
    assert es[i].count == 0 ==> ApartFrom(es[..i], es[i]);
  }

  // ----- The check -----

  /** The inner loop: whether the newest partition overlaps none of the ones before. */
  method IsApart(mbr: array<Entry>, n: nat) returns (apart: bool)
    requires n < mbr.Length && forall k :: 0 <= k <= n ==> mbr[k].count != 0
    ensures apart <==> ApartFrom(mbr[..n], mbr[n])
  {
    hide Apart;
    for j := 0 to n
      invariant forall k :: 0 <= k < j ==> Apart(mbr[k], mbr[n])
    {
      OverlapTest(mbr[j], mbr[n]);
      if mbr[j].start + mbr[j].count <= mbr[n].start {
        continue;
      }
      if mbr[n].start + mbr[n].count <= mbr[j].start {
        continue;
      }
      assert mbr[..n][j] == mbr[j];
      return false;
    }
    return true;
  }

  /** The check of a table of any length: accepted exactly if it partitions the drive. */
  method Check(es: seq<Entry>, sectors: nat) returns (ok: bool, found: seq<Entry>)
    ensures ok <==> Partitioned(es, sectors)
    ensures ok ==> found == Used(es)
  {
    hide Apart, Owns, ApartFrom, Used, Sound;
    var mbr := new Entry[|es|];
    var n := 0;
    found := [];
    NothingUsed(es);
    for i := 0 to |es|
      invariant 0 <= n <= i && mbr[..n] == Used(es[..i])
      invariant AllSound(es[..i], sectors) && AllApart(es[..i])
    {
      var e := es[i];
      SoundTest(e, sectors);
      if e.start == 0 && e.count != 0 {
        return false, [];
      }
      if e.start != 0 && e.count == 0 {
        return false, [];
      }
      TableStep(es, i);
      if e.count == 0 {
        continue;
      }
      if e.start + e.count > sectors {
        return false, [];
      }
      if e.kind == GPT {
        return false, [];
      }
      mbr[n] := e;
      assert mbr[..n] == Used(es[..i]);
      assert forall k :: 0 <= k < n ==> mbr[k] == mbr[..n][k];
      var apart := IsApart(mbr, n);
      if !apart {
        return false, [];
      }
      n := n + 1;
    }
    assert es[..|es|] == es;
    SomeUsed(es);
    ok := n != 0;
    found := mbr[..n];
  }

  lemma NothingUsed(es: seq<Entry>)
    ensures Used(es[..0]) == [] && AllApart(es[..0])
  {
  }

  lemma {:induction false} SomeUsed(es: seq<Entry>)
    ensures Used(es) != [] <==> exists i :: 0 <= i < |es| && es[i].count != 0
  {
    if es != [] {
      SomeUsed(es[..|es| - 1]);
    }
  }

  lemma UsedOneMore(es: seq<Entry>, e: Entry)
    ensures Used(es + [e]) == Used(es) + if e.count != 0 then [e] else []
  {
    assert (es + [e])[..|es|] == es;
  }

  /** The partitions keep the order of the table. */
  lemma {:induction false} UsedOfBoth(es: seq<Entry>, more: seq<Entry>)
    ensures Used(es + more) == Used(es) + Used(more)
    decreases |more|
  {
    hide Used;
    if more == [] {
      assert es + more == es;
      NothingUsed(es);
      assert es[..0] == more;
    } else {
      var front, last := more[..|more| - 1], more[|more| - 1];
      UsedOfBoth(es, front);
      UsedOneMore(front, last);
      UsedOneMore(es + front, last);
      assert front + [last] == more;
      assert es + front + [last] == es + more;
    }
  }

  // ----- The table of a drive -----

  const TABLE := 446

  /** The packed entry: its type at 4, start and count, little-endian, at 8 and 12. */
  function EntryAt(table: seq<byte>, i: nat): Entry
    requires |table| == 512 && i < 4
  {
    var at := TABLE + 16 * i;
    Entry(Load(table, at + 8), Load(table, at + 12), table[at + 4])
  }

  function Entries(table: seq<byte>): seq<Entry>
    requires |table| == 512
  {
    [EntryAt(table, 0), EntryAt(table, 1), EntryAt(table, 2), EntryAt(table, 3)]
  }

  /** The bytes of an entry: flags, first and last place in the old addressing, type, start and count. */
  datatype Record = Record(flags: byte, first: seq<byte>, kind: byte, last: seq<byte>, start: nat, count: nat)

  ghost predicate WellFormed(r: Record) {
    |r.first| == 3 && |r.last| == 3 && r.start < TWO_32 && r.count < TWO_32
  }

  function EntryBytes(r: Record): (s: seq<byte>)
    ensures |s| == |r.first| + |r.last| + 10
  {
    [r.flags] + r.first + [r.kind] + r.last + LEBytes(r.start, 4) + LEBytes(r.count, 4)
  }

  /** Reading an entry from a table in which it was laid out gives its start, count and type. */
  lemma EntryIsRead(table: seq<byte>, i: nat, r: Record)
    requires |table| == 512 && i < 4 && WellFormed(r) && table[446 + 16 * i..462 + 16 * i] == EntryBytes(r)
    ensures EntryAt(table, i) == Entry(r.start, r.count, r.kind)
  {
    hide LEBytes, LEValue;
    var at, s := 446 + 16 * i, EntryBytes(r);
    Pow256Of4();
    LEValueOfBytes(r.start, 4);
    LEValueOfBytes(r.count, 4);
    SliceOfSlice(table, at, at + 16, 8, 12);
    SliceOfSlice(table, at, at + 16, 12, 16);
    assert s[8..12] == LEBytes(r.start, 4);
    assert s[12..16] == LEBytes(r.count, 4);
    assert table[at..at + 16][4] == s[4] == r.kind;
  }

  /** A sector made of any boot code, four entries and any signature is read as these entries. */
  lemma TableIsRead(boot: seq<byte>, a: Record, b: Record, c: Record, d: Record, signature: seq<byte>)
    requires |boot| == 446 && |signature| == 2 && WellFormed(a) && WellFormed(b) && WellFormed(c) && WellFormed(d)
    ensures var table := boot + EntryBytes(a) + EntryBytes(b) + EntryBytes(c) + EntryBytes(d) + signature;
            |table| == 512 && Entries(table) ==
            [Entry(a.start, a.count, a.kind), Entry(b.start, b.count, b.kind),
             Entry(c.start, c.count, c.kind), Entry(d.start, d.count, d.kind)]
  {
    hide EntryBytes, EntryAt;
    var table := boot + EntryBytes(a) + EntryBytes(b) + EntryBytes(c) + EntryBytes(d) + signature;
    assert table[446..462] == EntryBytes(a);
    EntryIsRead(table, 0, a);
    assert table[462..478] == EntryBytes(b);
    EntryIsRead(table, 1, b);
    assert table[478..494] == EntryBytes(c);
    EntryIsRead(table, 2, c);
    assert table[494..510] == EntryBytes(d);
    EntryIsRead(table, 3, d);
  }

  /** What a device says of itself. */
  datatype Features = Features(present: bool, writable: bool, readable: bool, seekable: bool, pageSize: nat)

  /** `mbr_init`, given the first sector of a drive of `size` bytes. */
  method Init(id: int, features: Features, table: seq<byte>, size: nat) returns (ok: bool, slots: seq<Slot>)
    requires |table| == 512
    ensures ok <==>
            && id >= 0 && features.present && features.writable && features.readable && features.seekable
            && features.pageSize == 512
            && Partitioned(Entries(table), size / 512)
    ensures ok ==>
              && |slots| == 4
              && forall k :: 0 <= k < 4 ==>
                   slots[k] == if k < |Used(Entries(table))| then Partition(id, Used(Entries(table))[k]) else NoDevice
  {
    hide Partitioned, Used, EntryAt;
    slots := [];
    if id < 0 || !features.present {
      return false, slots;
    }
    if !features.writable || !features.readable || !features.seekable {
      return false, slots;
    }
    if features.pageSize != 512 {
      return false, slots;
    }
    var found;
    ok, found := Check(Entries(table), size / 512);
    if !ok {
      return;
    }
    for i := 0 to |found|
      invariant |slots| == i && forall k :: 0 <= k < i ==> slots[k] == Partition(id, found[k])
    {
      slots := slots + [Partition(id, found[i])];
    }
    for i := |found| to 4
      invariant |slots| == i
      invariant forall k :: 0 <= k < i ==> slots[k] == if k < |found| then Partition(id, found[k]) else NoDevice
    {
      slots := slots + [NoDevice];
    }
  }
}
