/** Page-table construction of armv6/mmu.c. */
module Mmu {
  import opened Words
  import opened PageWalk
  import opened FirstLevel
  import opened SecondLevel

  // ----- what the builders leave in the tables

  datatype Tables = Tables(pgd: seq<Word>, pte: seq<Word>, next: Word)
  {
    predicate Valid() {
      |pgd| == 4096 && |pte| == 4096
    }
  }

  /** A store through a second-level pointer; one outside _pte_table is not modelled. */
  function Put(pte: seq<Word>, index: int, w: Word): seq<Word> {
    if 0 <= index < |pte| then pte[index := w] else pte
  }

  /** First-level entry used for page `i`: the one in place, or a new table's. */
  function EntryFor(t: Tables, d: MemDesc, i: nat): Word
    requires t.Valid() && d.vaddrStart / 0x1000 + i < 0x10_0000
  {
    var found := t.pgd[(d.vaddrStart / 0x1000 + i) / 256];
    if found == 0 then OrWord(t.next, d.sectAttr % 1024) else found
  }

  function SlotFor(t: Tables, base: Word, d: MemDesc, i: nat): int
    requires t.Valid() && d.vaddrStart / 0x1000 + i < 0x10_0000
  {
    PteIndex(EntryFor(t, d, i), base, d.vaddrStart / 0x1000 + i)
  }

  lemma SlotAddress(t: Tables, base: Word, d: MemDesc, i: nat, vp: int, entry: Word)
    requires t.Valid() && vp == d.vaddrStart / 0x1000 + i < 0x10_0000 && entry == EntryFor(t, d, i)
    ensures SlotFor(t, base, d, i) == (entry - entry % 1024 - base) / 4 + vp % 256
  {
  }

  function MapPage(t: Tables, base: Word, d: MemDesc, i: nat): (t': Tables)
    requires t.Valid() && d.vaddrStart / 0x1000 + i < 0x10_0000
    ensures t'.Valid()
  {
    var mb := (d.vaddrStart / 0x1000 + i) / 256;
    Tables(t.pgd[mb := EntryFor(t, d, i)],
           Put(t.pte, SlotFor(t, base, d, i), PageEntry(d, i)),
           if t.pgd[mb] == 0 then Wrap(t.next + 1024) else t.next)
  }

  function MapPages(t: Tables, base: Word, d: MemDesc, n: nat): (t': Tables)
    requires t.Valid() && d.vaddrStart / 0x1000 + n <= 0x10_0000
    ensures t'.Valid()
  {
    if n == 0 then t.(next := TableAddr(d.sectAttr))
    else MapPage(MapPages(t, base, d, n - 1), base, d, n - 1)
  }

  function EntryAfter(t: Tables, d: MemDesc, m: int): Word
    requires t.Valid() && 0 <= m < 4096
  {
    var first, last := d.vaddrStart / 0x10_0000, d.vaddrEnd / 0x10_0000;
    if first <= m <= last then SectionEntry(d, m - first) else t.pgd[m]
  }

  function MapSections(t: Tables, d: MemDesc): (t': Tables)
    requires t.Valid()
    ensures t'.Valid()
  {
    t.(pgd := seq(4096, m requires 0 <= m < 4096 => EntryAfter(t, d, m)))
  }

  /** One stamped descriptor, by its mode. */
  function InstallNext(t: Tables, base: Word, d: MemDesc): (t': Tables)
    requires t.Valid()
    ensures t'.Valid()
  {
    if d.mode.SectMapped? then MapSections(t, d) else MapPages(t, base, d, PageCount(d))
  }

  function Install(t: Tables, base: Word, ds: seq<MemDesc>, k: nat): (t': Tables)
    requires t.Valid() && k <= |ds|
    ensures t'.Valid()
  {
    if k == 0 then t else InstallNext(Install(t, base, ds, k - 1), base, ds[k - 1])
  }

  /** Every second-level store of mmu_create_pte falls inside _pte_table. */
  ghost predicate SlotsInside(t: Tables, base: Word, d: MemDesc)
    requires t.Valid()
  {
    forall i :: 0 <= i < PageCount(d) ==> 0 <= SlotFor(MapPages(t, base, d, i), base, d, i) < 4096
  }

  // ----- the first-level table while pages are stored

  /** The first megabyte that the first `n` pages of `d` do not enter. */
  function Top(d: MemDesc, n: nat): nat {
    if n == 0 then d.vaddrStart / 0x10_0000 else (d.vaddrStart / 0x1000 + n - 1) / 256 + 1
  }

  /** `d` is page-mapped descriptor `k` with its first table stamped in. */
  predicate IsStampOf(d: MemDesc, base: Word, ds: seq<MemDesc>, k: nat)
    requires k < |ds|
  {
    && ds[k].mode.PageMapped? && d == ds[k].(sectAttr := d.sectAttr)
    && d.sectAttr % 4 == 1 && TableAddr(d.sectAttr) == base + 1024 * ReservedBefore(ds, k)
    && d.pageAttr < 0x1000 && d.pageAttr % 4 >= 2
  }

  /** The first-level table and `pte_offset` after the first `i` pages of descriptor `k`. */
  ghost predicate Underway(t: Tables, base: Word, ds: seq<MemDesc>, k: nat, d: MemDesc, i: nat)
    requires k < |ds|
  {
    && Directory(t.pgd, base, ds, k, Top(d, i))
    && t.next == Wrap(base + 1024 * TableIndex(ds, k, Top(d, i)))
  }

  lemma PageInMegabyte(d: MemDesc, i: nat, m: nat)
    requires d.mode.PageMapped? && i < PageCount(d) && m == (d.vaddrStart / 0x1000 + i) / 256
    ensures d.vaddrStart / 0x1000 + i < 0x10_0000
    ensures m < 4096 && Enters(d, m) && m <= Top(d, i) <= m + 1 && Top(d, i + 1) == m + 1
  {
  }

  lemma NextIndex(next: Word, base: Word, index: nat)
    requires Base(base) && next == Wrap(base + 1024 * index)
    ensures next % 1024 == 0 && Wrap(next + 1024) == Wrap(base + 1024 * (index + 1))
  {
    var x := base + 1024 * index;
    var q := x / 0x1_0000_0000;
    assert x == q * 0x1_0000_0000 + next;
    DivUnique(next, 1024, base / 1024 + index - q * 0x40_0000, 0);
    if next + 1024 == 0x1_0000_0000 {
      DivUnique(x + 1024, 0x1_0000_0000, q + 1, 0);
    } else {
      DivUnique(x + 1024, 0x1_0000_0000, q, next + 1024);
    }
  }

  /** One page: either its megabyte is in use, or it takes the next table. */
  lemma DirectoryPage(t: Tables, base: Word, ds: seq<MemDesc>, k: nat, d: MemDesc, i: nat)
    requires t.Valid() && Base(base) && k < |ds| && Disjoint(ds) && IsStampOf(d, base, ds, k) && i < PageCount(d)
    requires Underway(t, base, ds, k, d, i)
    ensures d.vaddrStart / 0x1000 + i < 0x10_0000
    ensures Underway(MapPage(t, base, d, i), base, ds, k, d, i + 1)
  {
    var m := (d.vaddrStart / 0x1000 + i) / 256;
    PageInMegabyte(d, i, m);
    Vacant(t.pgd, base, ds, k, Top(d, i), m);
    var e := EntryFor(t, d, i);
    MapPageIs(t, base, d, i, m, PteIndex(e, base, d.vaddrStart / 0x1000 + i));
    if t.pgd[m] == 0 {
      NextIndex(t.next, base, TableIndex(ds, k, m));
      NewEntry(t, d, i);
      EnterMegabyte(t.pgd, base, ds, k, m, e);
    } else {
      assert t.pgd[m := e] == t.pgd;
      PassMegabyte(t.pgd, base, ds, k, Top(d, i), m);
    }
  }

  lemma DirectoryStart(t: Tables, base: Word, ds: seq<MemDesc>, k: nat, d: MemDesc)
    requires t.Valid() && Base(base) && k < |ds| && IsStampOf(d, base, ds, k)
    requires Directory(t.pgd, base, ds, k, 0) && ReservedBefore(ds, k) < 4
    ensures Underway(t.(next := TableAddr(d.sectAttr)), base, ds, k, d, 0)
  {
    FreshWithin(ds, k, Top(d, 0));
    forall m | 0 <= m < 4096
      ensures EntryIs(t.pgd[m], base, ds, k, Top(d, 0), m)
    {
      assert EntryIs(t.pgd[m], base, ds, k, 0, m);
    }
  }

  lemma {:induction false} DirectoryPages(t: Tables, base: Word, ds: seq<MemDesc>, k: nat, d: MemDesc, n: nat)
    requires t.Valid() && Base(base) && k < |ds| && Disjoint(ds) && IsStampOf(d, base, ds, k) && n <= PageCount(d)
    requires Directory(t.pgd, base, ds, k, 0) && ReservedBefore(ds, k) < 4
    ensures d.vaddrStart / 0x1000 + n <= 0x10_0000
    ensures Underway(MapPages(t, base, d, n), base, ds, k, d, n)
  {
    if n == 0 {
      DirectoryStart(t, base, ds, k, d);
    } else {
      DirectoryPages(t, base, ds, k, d, n - 1);
      var u := MapPages(t, base, d, n - 1);
      DirectoryPage(u, base, ds, k, d, n - 1);
      assert MapPages(t, base, d, n) == MapPage(u, base, d, n - 1);
    }
  }

  // ----- the second-level table while pages are stored

  /** Page `i` of descriptor `k` goes to its own place. */
  lemma PagePlace(t: Tables, base: Word, ds: seq<MemDesc>, k: nat, d: MemDesc, i: nat)
    requires t.Valid() && Base(base) && k < |ds| && Disjoint(ds) && IsStampOf(d, base, ds, k) && i < PageCount(d)
    requires InFour(ds) && Underway(t, base, ds, k, d, i)
    ensures d.vaddrStart / 0x1000 + i < 0x10_0000
    ensures SlotFor(t, base, d, i) == PlaceOf(ds, PageAt(ds, k, i)) && 0 <= SlotFor(t, base, d, i) < 1024
  {
    var m := (d.vaddrStart / 0x1000 + i) / 256;
    PageInMegabyte(d, i, m);
    DirectoryPage(t, base, ds, k, d, i);
    var e, u := EntryFor(t, d, i), MapPage(t, base, d, i);
    MapPageIs(t, base, d, i, m, PteIndex(e, base, d.vaddrStart / 0x1000 + i));
    assert u.pgd[m] == e;
    assert EntryIs(u.pgd[m], base, ds, k, m + 1, m);
    PlaceOfEntry(e, base, ds, k, PageAt(ds, k, i));
  }

  lemma PlaceOfEntry(e: Word, base: Word, ds: seq<MemDesc>, k: nat, vp: nat)
    requires Base(base) && k < |ds| && InFour(ds) && vp < 0x10_0000 && Enters(ds[k], vp / 256)
    requires EntryIs(e, base, ds, k, vp / 256 + 1, vp / 256)
    ensures PteIndex(e, base, vp) == PlaceOf(ds, vp) && 0 <= PlaceOf(ds, vp) < 1024
  {
    var o := OwnerFrom(ds, k, vp / 256);
    PlaceInTable(e, base, TableIndex(ds, o, vp / 256), vp);
  }

  /** The first descriptor to enter a megabyte that descriptor `k` enters. */
  lemma OwnerFrom(ds: seq<MemDesc>, k: nat, m: nat) returns (o: nat)
    requires k < |ds| && Enters(ds[k], m) && m < 4096 && InFour(ds)
    ensures o == if Owner(ds, k, m) >= 0 then Owner(ds, k, m) else k
    ensures o < |ds| && Owner(ds, |ds|, m) == o && TableIndex(ds, o, m) < 4
  {
    o := k;
    if Owner(ds, k, m) >= 0 {
      OwnerIsFresh(ds, k, m);
      o := Owner(ds, k, m);
    }
    OwnerStays(ds, o, |ds|, m);
    FreshGrows(ds, o, m, 4096);
    assert Fresh(ds, o) > 0;
  }

  lemma PageFilled(t: Tables, base: Word, ds: seq<MemDesc>, k: nat, d: MemDesc, i: nat)
    requires t.Valid() && Base(base) && k < |ds| && Disjoint(ds) && IsStampOf(d, base, ds, k) && i < PageCount(d)
    requires InFour(ds) && Underway(t, base, ds, k, d, i) && Filled(t.pte, ds, k, i)
    ensures d.vaddrStart / 0x1000 + i < 0x10_0000
    ensures Filled(MapPage(t, base, d, i).pte, ds, k, i + 1)
  {
    PagePlace(t, base, ds, k, d, i);
    PageEntryFrame(d, i);
    PageStored(t.pte, ds, k, i, SlotFor(t, base, d, i), PageEntry(d, i));
  }

  /** Pages `0..n` of descriptor `k`. */
  lemma {:induction false} PagesFilled(t: Tables, base: Word, ds: seq<MemDesc>, k: nat, d: MemDesc, n: nat)
    requires t.Valid() && Base(base) && k < |ds| && Disjoint(ds) && IsStampOf(d, base, ds, k) && n <= PageCount(d)
    requires Directory(t.pgd, base, ds, k, 0) && ReservedBefore(ds, k) < 4
    requires InFour(ds) && Filled(t.pte, ds, k, 0)
    ensures d.vaddrStart / 0x1000 + n <= 0x10_0000
    ensures Filled(MapPages(t, base, d, n).pte, ds, k, n)
  {
    if n > 0 {
      PagesFilled(t, base, ds, k, d, n - 1);
      DirectoryPages(t, base, ds, k, d, n - 1);
      var u := MapPages(t, base, d, n - 1);
      PageFilled(u, base, ds, k, d, n - 1);
      assert MapPages(t, base, d, n) == MapPage(u, base, d, n - 1);
    }
  }

  lemma MapPageIs(t: Tables, base: Word, d: MemDesc, i: nat, mb: nat, slot: int)
    requires t.Valid() && d.vaddrStart / 0x1000 + i < 0x10_0000 && mb == (d.vaddrStart / 0x1000 + i) / 256
    requires slot == PteIndex(EntryFor(t, d, i), base, d.vaddrStart / 0x1000 + i)
    ensures mb < 4096 && SlotFor(t, base, d, i) == slot
    ensures MapPage(t, base, d, i) ==
            Tables(t.pgd[mb := EntryFor(t, d, i)], Put(t.pte, slot, PageEntry(d, i)),
                   if t.pgd[mb] == 0 then Wrap(t.next + 1024) else t.next)
  {
  }

  lemma NextTable(next: Word, base: Word, lim: nat)
    requires base % 1024 == 0 && base + 0x4000 <= 0x1_0000_0000 && lim < 4 && next == base + 1024 * lim
    ensures next % 1024 == 0 && Wrap(next + 1024) == base + 1024 * (lim + 1)
  {
    DivUnique(next, 1024, base / 1024 + lim, 0);
  }

  lemma NewEntry(t: Tables, d: MemDesc, i: nat)
    requires t.Valid() && d.vaddrStart / 0x1000 + i < 0x10_0000 && t.pgd[(d.vaddrStart / 0x1000 + i) / 256] == 0
    requires t.next % 1024 == 0 && d.sectAttr % 4 == 1
    ensures var e := EntryFor(t, d, i); e % 4 == 1 && TableAddr(e) == t.next
  {
    LowBits(d.sectAttr);
    TableEntry(t.next, d.sectAttr % 1024);
  }

  function Cleared(t: Tables): (t': Tables)
    requires t.Valid()
    ensures t'.Valid()
  {
    Tables(seq(4096, _ => 0), seq<Word>(1024, _ => 0) + t.pte[1024..], t.next)
  }

  function Stamped(ds: seq<MemDesc>, base: Word): (r: seq<MemDesc>)
    ensures IsStamped(r, ds, base)
    ensures |r| == |ds|
    ensures forall i {:trigger r[i]} :: 0 <= i < |ds| ==>
      r[i].vaddrStart == ds[i].vaddrStart && r[i].vaddrEnd == ds[i].vaddrEnd && r[i].mode == ds[i].mode
  {
    seq(|ds|, i requires 0 <= i < |ds| => WithTable(ds[i], base, ReservedBefore(ds, i)))
  }

  ghost predicate IsStamped(stamped: seq<MemDesc>, ds: seq<MemDesc>, base: Word) {
    && |stamped| == |ds|
    && forall i {:trigger WithTable(ds[i], base, ReservedBefore(ds, i))} :: 0 <= i < |ds| ==>
         stamped[i] == WithTable(ds[i], base, ReservedBefore(ds, i))
  }

  /** The tables after rt_hw_mmu_init has gone through the first `k` descriptors. */
  function Initialised(t: Tables, base: Word, ds: seq<MemDesc>, k: nat): (t': Tables)
    requires t.Valid() && k <= |ds|
    ensures t'.Valid()
  {
    Install(Cleared(t), base, Stamped(ds, base), k)
  }

  lemma InitialisedStep(t: Tables, base: Word, ds: seq<MemDesc>, k: nat)
    requires t.Valid() && k < |ds|
    ensures Initialised(t, base, ds, k + 1) ==
            InstallNext(Initialised(t, base, ds, k), base, Stamped(ds, base)[k])
  {
  }

  lemma DirectoryInstalled(u: Tables, base: Word, ds: seq<MemDesc>, k: nat)
    requires u.Valid() && Base(base) && k < |ds| && WellFormed(ds[k]) && Disjoint(ds)
    requires ReservedBefore(ds, |ds|) < 4 && Directory(u.pgd, base, ds, k, 0)
    ensures Directory(InstallNext(u, base, Stamped(ds, base)[k]).pgd, base, ds, k + 1, 0)
  {
    var d := Stamped(ds, base)[k];
    if ds[k].mode.SectMapped? {
      SectionsEntered(u.pgd, MapSections(u, d).pgd, base, ds, k);
    } else {
      StampedPage(ds, base, k);
      DirectoryOfPages(u, base, ds, k, d);
    }
  }

  lemma DirectoryOfPages(u: Tables, base: Word, ds: seq<MemDesc>, k: nat, d: MemDesc)
    requires u.Valid() && Base(base) && k < |ds| && Disjoint(ds) && IsStampOf(d, base, ds, k)
    requires ReservedBefore(ds, k) < 4 && Directory(u.pgd, base, ds, k, 0)
    ensures Directory(MapPages(u, base, d, PageCount(d)).pgd, base, ds, k + 1, 0)
  {
    DirectoryPages(u, base, ds, k, d, PageCount(d));
    PagesEntered(MapPages(u, base, d, PageCount(d)).pgd, base, ds, k);
  }

  lemma ClearedDirectory(t: Tables, base: Word, ds: seq<MemDesc>)
    requires t.Valid()
    ensures Directory(Cleared(t).pgd, base, ds, 0, 0)
  {
  }

  lemma NextDirectory(t: Tables, base: Word, ds: seq<MemDesc>, k: nat, u: Tables, v: Tables)
    requires t.Valid() && Base(base) && AllWellFormed(ds) && Disjoint(ds) && k < |ds|
    requires ReservedBefore(ds, |ds|) < 4
    requires u == Initialised(t, base, ds, k) && v == Initialised(t, base, ds, k + 1)
    requires Directory(u.pgd, base, ds, k, 0)
    ensures Directory(v.pgd, base, ds, k + 1, 0)
  {
    InitialisedStep(t, base, ds, k);
    assert WellFormed(ds[k]);
    DirectoryInstalled(u, base, ds, k);
  }

  lemma {:induction false} InitialisedDirectory(t: Tables, base: Word, ds: seq<MemDesc>, k: nat)
    requires t.Valid() && Base(base) && AllWellFormed(ds) && Disjoint(ds) && k <= |ds|
    requires ReservedBefore(ds, |ds|) < 4
    ensures Directory(Initialised(t, base, ds, k).pgd, base, ds, k, 0)
  {
    if k == 0 {
      ClearedDirectory(t, base, ds);
    } else {
      InitialisedDirectory(t, base, ds, k - 1);
      NextDirectory(t, base, ds, k - 1, Initialised(t, base, ds, k - 1), Initialised(t, base, ds, k));
    }
  }

  lemma StampedPage(ds: seq<MemDesc>, base: Word, k: nat)
    requires Base(base) && k < |ds| && ReservedBefore(ds, |ds|) < 4
    requires WellFormed(ds[k]) && ds[k].mode.PageMapped?
    ensures ReservedBefore(ds, k) < 4 && IsStampOf(Stamped(ds, base)[k], base, ds, k)
  {
    ReservedMonotone(ds, k, |ds|);
    StampedDescriptor(ds[k], base, ReservedBefore(ds, k));
  }

  lemma FilledInstalled(u: Tables, base: Word, ds: seq<MemDesc>, k: nat)
    requires u.Valid() && Base(base) && k < |ds| && WellFormed(ds[k]) && Disjoint(ds)
    requires ReservedBefore(ds, |ds|) < 4 && InFour(ds)
    requires Directory(u.pgd, base, ds, k, 0) && Filled(u.pte, ds, k, 0)
    ensures Filled(InstallNext(u, base, Stamped(ds, base)[k]).pte, ds, k + 1, 0)
  {
    var d := Stamped(ds, base)[k];
    if ds[k].mode.SectMapped? {
      NextDescriptor(u.pte, ds, k, 0);
    } else {
      StampedPage(ds, base, k);
      PagesFilled(u, base, ds, k, d, PageCount(d));
      NextDescriptor(MapPages(u, base, d, PageCount(d)).pte, ds, k, PageCount(d));
    }
  }

  lemma NextFilled(t: Tables, base: Word, ds: seq<MemDesc>, k: nat, u: Tables, v: Tables)
    requires t.Valid() && Base(base) && AllWellFormed(ds) && Disjoint(ds) && k < |ds|
    requires ReservedBefore(ds, |ds|) < 4 && InFour(ds)
    requires u == Initialised(t, base, ds, k) && v == Initialised(t, base, ds, k + 1)
    requires Filled(u.pte, ds, k, 0)
    ensures Filled(v.pte, ds, k + 1, 0)
  {
    InitialisedStep(t, base, ds, k);
    InitialisedDirectory(t, base, ds, k);
    assert WellFormed(ds[k]);
    FilledInstalled(u, base, ds, k);
  }

  lemma ClearedFilled(t: Tables, ds: seq<MemDesc>)
    requires t.Valid()
    ensures Filled(Cleared(t).pte, ds, 0, 0)
  {
    var pte := Cleared(t).pte;
    forall slot | 0 <= slot < 1024
      ensures SlotIs(pte[slot], ds, 0, 0, slot)
    {
      assert pte[slot] == 0;
    }
  }

  /** After any number of descriptors every second-level entry is that of a page
      stored there, or untouched. */
  lemma {:induction false} InitialisedFilled(t: Tables, base: Word, ds: seq<MemDesc>, k: nat)
    requires t.Valid() && Base(base) && AllWellFormed(ds) && Disjoint(ds) && k <= |ds|
    requires ReservedBefore(ds, |ds|) < 4 && InFour(ds)
    ensures Filled(Initialised(t, base, ds, k).pte, ds, k, 0)
  {
    if k == 0 {
      ClearedFilled(t, ds);
    } else {
      InitialisedFilled(t, base, ds, k - 1);
      NextFilled(t, base, ds, k - 1, Initialised(t, base, ds, k - 1), Initialised(t, base, ds, k));
    }
  }

  lemma NextOffset(offset: int, before: int, nsec: int, after: int)
    requires offset == 1024 * before && after == before + nsec
    ensures offset + nsec * 1024 == 1024 * after
  {
  }

  lemma StampedDescriptor(d: MemDesc, base: Word, before: nat)
    requires d.mode.PageMapped? && d.sectAttr < 1024 && d.sectAttr % 4 == 1
    requires base % 1024 == 0 && base + 0x4000 <= 0x1_0000_0000 && before < 4
    ensures var s := WithTable(d, base, before);
            s.sectAttr % 4 == 1 && TableAddr(s.sectAttr) == base + 1024 * before
  {
    var table := base + 1024 * before;
    DivUnique(table, 1024, base / 1024 + before, 0);
    assert WithTable(d, base, before).sectAttr == OrWord(d.sectAttr, table);
    TableEntryIs(table, d.sectAttr);
    EntryParts(table, d.sectAttr);
  }

  /** No store of mmu_create_pte leaves the cleared tables, unless a descriptor spans
      the whole address space. */
  lemma InitialisedSlots(t: Tables, base: Word, ds: seq<MemDesc>, k: nat)
    requires t.Valid() && Base(base) && AllWellFormed(ds) && Disjoint(ds) && k < |ds|
    requires ReservedBefore(ds, |ds|) < 4 && InFour(ds) && ds[k].mode.PageMapped?
    ensures SlotsInside(Initialised(t, base, ds, k), base, Stamped(ds, base)[k])
  {
    var u, d := Initialised(t, base, ds, k), Stamped(ds, base)[k];
    InitialisedDirectory(t, base, ds, k);
    assert WellFormed(ds[k]);
    StampedPage(ds, base, k);
    forall i | 0 <= i < PageCount(d)
      ensures 0 <= SlotFor(MapPages(u, base, d, i), base, d, i) < 4096
    {
      DirectoryPages(u, base, ds, k, d, i);
      PagePlace(MapPages(u, base, d, i), base, ds, k, d, i);
    }
  }

  predicate NoneSpansAll(ds: seq<MemDesc>) {
    forall o {:trigger ds[o]} :: 0 <= o < |ds| ==> !SpansAll(ds[o])
  }

  lemma NoneSpansInFour(ds: seq<MemDesc>)
    requires ReservedBefore(ds, |ds|) < 4 && NoneSpansAll(ds)
    ensures InFour(ds)
  {
    forall k | 0 <= k < |ds|
      ensures Fresh(ds, k) == 0 || ReservedBefore(ds, k) + Fresh(ds, k) <= 4
    {
      FreshBounded(ds, k);
    }
  }

  ghost predicate WalksAsIntended(pgd: seq<Word>, pte: seq<Word>, base: Word, ds: seq<MemDesc>)
    requires |pgd| == 4096 && |pte| == 4096
  {
    forall va: Word :: Walk(pgd, pte, base, va) == Intended(ds, va)
  }

  /** Agreement page by page is agreement at every address. */
  lemma WalkByPages(pgd: seq<Word>, pte: seq<Word>, base: Word, ds: seq<MemDesc>)
    requires |pgd| == 4096 && |pte| == 4096
    ensures WalksAsIntended(pgd, pte, base, ds)
            <==> forall vp: nat {:trigger WalkPage(pgd, pte, base, vp)} ::
                   vp < 0x10_0000 ==> WalkPage(pgd, pte, base, vp) == Lookup(Regions(ds), vp)
  {
    if WalksAsIntended(pgd, pte, base, ds) {
      forall vp: nat | vp < 0x10_0000
        ensures WalkPage(pgd, pte, base, vp) == Lookup(Regions(ds), vp)
      {
        PageOfAddress(pgd, pte, base, ds, vp);
      }
    } else {
      var va: Word :| Walk(pgd, pte, base, va) != Intended(ds, va);
      assert WalkPage(pgd, pte, base, va / 0x1000) != Lookup(Regions(ds), va / 0x1000);
    }
  }

  lemma PageOfAddress(pgd: seq<Word>, pte: seq<Word>, base: Word, ds: seq<MemDesc>, vp: nat)
    requires |pgd| == 4096 && |pte| == 4096 && vp < 0x10_0000 && WalksAsIntended(pgd, pte, base, ds)
    ensures WalkPage(pgd, pte, base, vp) == Lookup(Regions(ds), vp)
  {
    var va: Word := vp * 0x1000;
    DivUnique(va, 0x1000, vp, 0);
    assert Walk(pgd, pte, base, va) == Intended(ds, va);
  }

  /** The tables after each prefix of the list. */
  ghost predicate IsTrace(states: seq<Tables>, t: Tables, base: Word, ds: seq<MemDesc>)
    requires t.Valid()
  {
    && |states| == |ds| + 1
    && forall k {:trigger Initialised(t, base, ds, k)} :: 0 <= k <= |ds| ==>
         states[k] == Initialised(t, base, ds, k)
  }

  ghost function Trace(t: Tables, base: Word, ds: seq<MemDesc>): (states: seq<Tables>)
    requires t.Valid()
    ensures IsTrace(states, t, base, ds)
  {
    seq(|ds| + 1, k requires 0 <= k <= |ds| => Initialised(t, base, ds, k))
  }

  /** For every list that passes the bound check: the finished tables are separate
      if and only if the ranges of tables taken are apart and among the four. */
  lemma InitialisedSeparate(t: Tables, base: Word, ds: seq<MemDesc>)
    requires t.Valid() && Base(base) && AllWellFormed(ds) && Disjoint(ds)
    requires ReservedBefore(ds, |ds|) < 4
    ensures TablesSeparate(Initialised(t, base, ds, |ds|).pgd, base) <==> Roomy(ds)
  {
    InitialisedDirectory(t, base, ds, |ds|);
    SeparateExact(Initialised(t, base, ds, |ds|).pgd, base, ds);
  }

  /** And, as long as only the four are taken, they translate every address as the
      list asks if and only if megabytes that share a table intend the same. */
  lemma InitialisedWalks(t: Tables, base: Word, ds: seq<MemDesc>)
    requires t.Valid() && Base(base) && AllWellFormed(ds) && Disjoint(ds)
    requires ReservedBefore(ds, |ds|) < 4 && InFour(ds)
    ensures var u := Initialised(t, base, ds, |ds|);
            WalksAsIntended(u.pgd, u.pte, base, ds) <==> SharersAgree(ds)
  {
    var u := Initialised(t, base, ds, |ds|);
    InitialisedDirectory(t, base, ds, |ds|);
    InitialisedFilled(t, base, ds, |ds|);
    WalkExact(u.pgd, u.pte, base, ds);
    WalkByPages(u.pgd, u.pte, base, ds);
  }

  /** What the list asks for inside a descriptor whose virtual and physical
      starts agree below the mapping granule: the constant offset. */
  lemma IntendedInside(ds: seq<MemDesc>, k: nat, va: Word)
    requires AllWellFormed(ds) && Disjoint(ds) && k < |ds|
    requires ds[k].vaddrStart <= va <= ds[k].vaddrEnd
    requires var granule := if ds[k].mode.SectMapped? then 0x10_0000 else 0x1000;
             ds[k].vaddrStart % granule == ds[k].paddrStart % granule
    ensures Intended(ds, va) == Mapped(Wrap(ds[k].paddrStart + (va - ds[k].vaddrStart)))
  {
    RegionCovers(ds[k], va);
    CoveredIsIntended(ds, k, va / 0x1000);
    OffsetFrame(ds[k], va);
  }

  lemma RegionCovers(d: MemDesc, va: Word)
    requires d.vaddrStart <= va <= d.vaddrEnd
    ensures RegionOf(d).Covers(va / 0x1000)
  {
    assert va / 0x1000 / 256 == va / 0x10_0000;
  }

  lemma OffsetFrame(d: MemDesc, va: Word)
    requires d.vaddrStart <= va
    requires var granule := if d.mode.SectMapped? then 0x10_0000 else 0x1000;
             d.vaddrStart % granule == d.paddrStart % granule
    ensures RegionOf(d).FrameOf(va / 0x1000) * 0x1000 + va % 0x1000 ==
            Wrap(d.paddrStart + (va - d.vaddrStart))
  {
    var r := RegionOf(d);
    var pages := r.frame + (va / 0x1000 - r.first);
    assert d.paddrStart + (va - d.vaddrStart) == pages * 0x1000 + va % 0x1000;
    assert pages == pages / 0x10_0000 * 0x10_0000 + pages % 0x10_0000;
    DivUnique(pages * 0x1000 + va % 0x1000, 0x1_0000_0000, pages / 0x10_0000,
              pages % 0x10_0000 * 0x1000 + va % 0x1000);
  }

  /** Outside every page and section that a descriptor reaches into, access faults. */
  lemma IntendedOutside(ds: seq<MemDesc>, va: Word)
    requires forall i :: 0 <= i < |ds| ==> !RegionOf(ds[i]).Covers(va / 0x1000)
    ensures Intended(ds, va) == Fault
  {
    LookupFault(Regions(ds), va / 0x1000);
  }

  // ----- a reservation that is too short

  lemma FirstStore(t: Tables, base: Word, d: MemDesc, i: nat, lim: nat)
    requires t.Valid() && Base(base) && lim < 4 && d.vaddrStart / 0x1000 + i < 0x10_0000
    requires t.pgd[(d.vaddrStart / 0x1000 + i) / 256] == 0 && t.next == base + 1024 * lim && d.sectAttr % 4 == 1
    ensures var vp, e, u := d.vaddrStart / 0x1000 + i, EntryFor(t, d, i), MapPage(t, base, d, i);
            && e % 4 == 1 && TableAddr(e) == base + 1024 * lim && u.next == base + 1024 * (lim + 1)
            && u.pgd == t.pgd[vp / 256 := e]
            && u.pte == t.pte[256 * lim + vp % 256 := PageEntry(d, i)]
  {
    var vp, e := d.vaddrStart / 0x1000 + i, EntryFor(t, d, i);
    NextTable(t.next, base, lim);
    NewEntry(t, d, i);
    assert PteIndex(e, base, vp) == 256 * lim + vp % 256;
    MapPageIs(t, base, d, i, vp / 256, PteIndex(e, base, vp));
  }

  /** Two page-mapped ranges in different megabytes; the first ends on the first
      byte of a megabyte, which the reservation does not count. */
  function ShortList(attr: Word, pageAttr: Word): seq<MemDesc> {
    [RawDesc(0xF_F000, 0x10_0000, 0xF_F000, attr, pageAttr, PageMapped),
     RawDesc(0x20_0000, 0x20_0FFF, 0x30_0000, attr, pageAttr, PageMapped)]
  }

  /** Then two megabytes share a table, and an address of the first range is
      translated as one of the second. */
  lemma ShortReservationCollides(t: Tables, base: Word, attr: Word, pageAttr: Word)
    requires t.Valid() && Base(base) && attr < 1024 && attr % 4 == 1 && pageAttr < 0x1000 && pageAttr % 4 >= 2
    ensures var ds := ShortList(attr, pageAttr);
            var u := Initialised(t, base, ds, |ds|);
            && Disjoint(ds) && ReservedBefore(ds, |ds|) == 2
            && Intended(ds, 0x10_0000) == Mapped(0x10_0000)
            && Walk(u.pgd, u.pte, base, 0x10_0000) == Mapped(0x30_0000)
  {
    var ds := ShortList(attr, pageAttr);
    ShortListIntends(attr, pageAttr);
    ShortListWalks(t, base, ds);
  }

  lemma ShortListWalks(t: Tables, base: Word, ds: seq<MemDesc>)
    requires t.Valid() && Base(base) && |ds| == 2 && ReservedBefore(ds, 1) == 1 && ReservedBefore(ds, |ds|) == 2
    requires forall i :: 0 <= i < 2 ==> ds[i].mode.PageMapped? && WellFormed(ds[i])
    requires ds[0].vaddrStart == 0xF_F000 && PageCount(ds[0]) == 2
    requires ds[1].vaddrStart == 0x20_0000 && PageCount(ds[1]) == 1
    ensures var u := Initialised(t, base, ds, |ds|);
            Walk(u.pgd, u.pte, base, 0x10_0000) == Mapped(ds[1].paddrStart / 0x1000 * 0x1000)
  {
    var d, e := Stamped(ds, base)[0], Stamped(ds, base)[1];
    StampedPage(ds, base, 0);
    StampedPage(ds, base, 1);
    TwoPageLists(t, base, ds, d, e);
    var u := Initialised(t, base, ds, |ds|);
    ShortListTables(t, base, d, e, PageCount(d), PageCount(e), u);
    LeafWalk(u.pgd, u.pte, base, e);
  }

  lemma LeafWalk(pgd: seq<Word>, pte: seq<Word>, base: Word, e: MemDesc)
    requires Base(base) && |pgd| == 4096 && |pte| == 4096
    requires pgd[1] % 4 == 1 && TableAddr(pgd[1]) == base + 1024 && pte[256] == PageEntry(e, 0)
    requires e.pageAttr < 0x1000 && e.pageAttr % 4 >= 2
    ensures Walk(pgd, pte, base, 0x10_0000) == Mapped(e.paddrStart / 0x1000 * 0x1000)
  {
    PageEntryFrame(e, 0);
    WalkThrough(pgd, pte, base);
  }

  lemma ShortListIntends(attr: Word, pageAttr: Word)
    ensures var ds := ShortList(attr, pageAttr);
            && Disjoint(ds) && ReservedBefore(ds, 1) == 1 && ReservedBefore(ds, |ds|) == 2
            && Intended(ds, 0x10_0000) == Mapped(0x10_0000)
  {
    var ds := ShortList(attr, pageAttr);
    var rs := Regions(ds);
    assert rs[1] == Region(0x200, 1, 0x300, false) && rs[0] == Region(0xFF, 2, 0xFF, false);
    assert Lookup(rs, 0x100) == Lookup(rs[..1], 0x100);
    assert Reserved(ds[0]) == 1 && Reserved(ds[1]) == 1;
    assert ReservedBefore(ds, 1) == ReservedBefore(ds, 0) + 1;
  }

  lemma ShortListTables(t: Tables, base: Word, d: MemDesc, e: MemDesc, two: nat, one: nat, u: Tables)
    requires t.Valid() && Base(base) && two == 2 && one == 1
    requires d.sectAttr % 4 == 1 && TableAddr(d.sectAttr) == base && d.vaddrStart == 0xF_F000
    requires e.sectAttr % 4 == 1 && TableAddr(e.sectAttr) == base + 1024 && e.vaddrStart == 0x20_0000
    requires u == MapPages(MapPages(Cleared(t), base, d, two), base, e, one)
    ensures u.Valid() && u.pgd[1] % 4 == 1 && TableAddr(u.pgd[1]) == base + 1024 && u.pte[256] == PageEntry(e, 0)
  {
    var t0 := Cleared(t).(next := base);
    var t1 := MapPage(t0, base, d, 0);
    FirstStore(t0, base, d, 0, 0);
    var t2 := MapPage(t1, base, d, 1);
    FirstStore(t1, base, d, 1, 1);
    assert MapPages(Cleared(t), base, d, one) == t1;
    assert MapPages(Cleared(t), base, d, two) == t2;
    var t3 := t2.(next := base + 1024);
    FirstStore(t3, base, e, 0, 1);
    assert MapPages(t2, base, e, one) == MapPage(t3, base, e, 0);
  }

  lemma TwoPageLists(t: Tables, base: Word, ds: seq<MemDesc>, d: MemDesc, e: MemDesc)
    requires t.Valid() && |ds| == 2 && d.mode.PageMapped? && e.mode.PageMapped?
    requires d == Stamped(ds, base)[0] && e == Stamped(ds, base)[1]
    ensures Initialised(t, base, ds, |ds|) ==
            MapPages(MapPages(Cleared(t), base, d, PageCount(d)), base, e, PageCount(e))
  {
    var k := |ds| - 2;
    assert Initialised(t, base, ds, k) == Cleared(t);
    InitialisedStep(t, base, ds, k);
    InitialisedStep(t, base, ds, k + 1);
  }

  lemma WalkThrough(pgd: seq<Word>, pte: seq<Word>, base: Word)
    requires Base(base) && |pgd| == 4096 && |pte| == 4096
    requires pgd[1] % 4 == 1 && TableAddr(pgd[1]) == base + 1024 && pte[256] % 4 >= 2
    ensures Walk(pgd, pte, base, 0x10_0000) == Mapped(pte[256] / 0x1000 * 0x1000)
  {
  }

  /** The running virtual address of mmu_create_pte wraps only past the last page. */
  lemma NextPage(vaddr: Word)
    requires vaddr / 0x1000 < 0xF_FFFF
    ensures Wrap(vaddr + 0x1000) / 0x1000 == vaddr / 0x1000 + 1
  {
  }

  // ----- the driver

  class PageTables {
    const pgd: array<Word>
    const pte: array<Word>
    const base: Word          // address of _pte_table

    ghost predicate Valid() {
      pgd.Length == 4096 && pte.Length == 4096 && pgd != pte && Base(base)
    }

    /** The two tables, with the address of the next second-level table. */
    ghost function State(next: Word): (t: Tables)
      requires Valid()
      reads pgd, pte
      ensures t.Valid()
    {
      Tables(pgd[..], pte[..], next)
    }

    constructor (base: Word)
      requires Base(base)
      ensures Valid() && fresh(pgd) && fresh(pte) && this.base == base
    {
      this.base := base;
      pgd := new Word[4096];
      pte := new Word[4096];
    }

    method CreatePgd(d: MemDesc, ghost next: Word)
      requires Valid()
      modifies pgd
      ensures State(next) == MapSections(old(State(next)), d)
    {
      var first := d.vaddrStart / 0x10_0000;
      var nSec := d.vaddrEnd / 0x10_0000 - first;
      var i := 0;
      while i <= nSec
        invariant 0 <= i <= nSec + 1
        invariant forall m :: 0 <= m < 4096 ==>
          pgd[m] == if first <= m < first + i then SectionEntry(d, m - first) else old(pgd[m])
      {
        pgd[first + i] := OrWord(d.sectAttr, Wrap((d.paddrStart / 0x10_0000 + i) * 0x10_0000));
        i := i + 1;
      }
    }

    /** Body of mmu_create_pte's loop, for page `i` at `vaddr`. */
    method StorePage(d: MemDesc, i: nat, vaddr: Word, pteOffset: Word) returns (next: Word)
      requires Valid() && vaddr / 0x1000 == d.vaddrStart / 0x1000 + i
      requires 0 <= SlotFor(State(pteOffset), base, d, i) < 4096
      modifies pgd, pte
      ensures State(next) == MapPage(old(State(pteOffset)), base, d, i)
    {
      ghost var u := State(pteOffset);
      var entry;
      entry, next := TableFor(d, i, vaddr, pteOffset);
      var index := (entry - entry % 1024 - base) / 4 + vaddr / 0x1000 % 256;
      SlotAddress(u, base, d, i, vaddr / 0x1000, entry);
      pte[index] := OrWord(d.pageAttr, Wrap((d.paddrStart / 0x1000 + i) * 0x1000));
      assert pte[..] == Put(u.pte, index, PageEntry(d, i));
    }

    /** The first-level entry of the page: the one there, or the next table's. */
    method TableFor(d: MemDesc, ghost i: nat, vaddr: Word, pteOffset: Word) returns (entry: Word, next: Word)
      requires Valid() && vaddr / 0x1000 == d.vaddrStart / 0x1000 + i
      modifies pgd
      ensures pte[..] == old(pte[..]) && entry == EntryFor(old(State(pteOffset)), d, i)
      ensures pgd[..] == old(pgd[..])[(d.vaddrStart / 0x1000 + i) / 256 := entry]
      ensures next == if old(pgd[(d.vaddrStart / 0x1000 + i) / 256]) == 0 then Wrap(pteOffset + 1024) else pteOffset
    {
      var mb := vaddr / 0x10_0000;
      assert mb == vaddr / 0x1000 / 256;
      next := pteOffset;
      if pgd[mb] == 0 {
        pgd[mb] := OrWord(pteOffset, d.sectAttr % 1024);
        next := Wrap(pteOffset + 1024);
      }
      entry := pgd[mb];
    }

    /** `d.sectAttr` carries the address of the first reserved table. */
    method CreatePte(d: MemDesc, ghost next: Word) returns (ghost next': Word)
      requires Valid()
      requires SlotsInside(State(next), base, d)
      modifies pgd, pte
      ensures State(next') == MapPages(old(State(next)), base, d, PageCount(d))
    {
      ghost var t := State(next);
      var totalPage := d.vaddrEnd / 0x1000 - d.vaddrStart / 0x1000 + 1;
      var pteOffset: Word := d.sectAttr - d.sectAttr % 1024;
      var vaddr: Word := d.vaddrStart;
      var i := 0;
      while i < totalPage
        invariant 0 <= i <= totalPage
        invariant i < totalPage ==> vaddr / 0x1000 == d.vaddrStart / 0x1000 + i
        invariant State(pteOffset) == MapPages(t, base, d, i)
      {
        pteOffset := StorePage(d, i, vaddr, pteOffset);
        if i + 1 < totalPage {
          NextPage(vaddr);
        }
        vaddr := Wrap(vaddr + 0x1000);
        i := i + 1;
        assert i < totalPage ==> vaddr / 0x1000 == d.vaddrStart / 0x1000 + i;
      }
      next' := pteOffset;
    }

    /** `nsec` in build_pte_mem_desc. */
    method SectionCount(d: MemDesc) returns (nsec: nat)
      requires d.mode.PageMapped?
      ensures nsec == Reserved(d)
    {
      SectionCountWraps(d.vaddrStart, d.vaddrEnd);
      nsec := Wrap(AlignUpMib(d.vaddrEnd) - AlignDownMib(d.vaddrStart)) / 0x10_0000;
    }

    method StampTable(mdesc: array<MemDesc>, i: nat, table: Word, ghost stamped: seq<MemDesc>,
                      ghost ds: seq<MemDesc>)
      requires i < mdesc.Length == |ds| && mdesc[i] == ds[i] && ds[i].mode.PageMapped?
      requires IsStamped(stamped, ds, base)
      requires table == Wrap(TableAddr(base) + 1024 * ReservedBefore(ds, i))
      modifies mdesc
      ensures mdesc[i] == stamped[i]
      ensures forall k :: 0 <= k < mdesc.Length && k != i ==> mdesc[k] == old(mdesc[k])
    {
      mdesc[i] := mdesc[i].(sectAttr := OrWord(mdesc[i].sectAttr, table));
      assert stamped[i] == WithTable(ds[i], base, ReservedBefore(ds, i));
    }

    /** Stamps each page-mapped descriptor with its first second-level table;
        false where the source stops in RT_ASSERT(0). */
    method BuildPteMemDesc(mdesc: array<MemDesc>, ghost stamped: seq<MemDesc>) returns (ok: bool)
      requires Valid() && IsStamped(stamped, mdesc[..], base)
      modifies mdesc
      ensures ok <==> ReservedBefore(old(mdesc[..]), mdesc.Length) < 4
      ensures ok ==> mdesc[..] == stamped
    {
      ghost var ds := mdesc[..];
      var pteOffset: Word := 0;
      var i := 0;
      while i < mdesc.Length
        invariant 0 <= i <= mdesc.Length
        invariant pteOffset == 1024 * ReservedBefore(ds, i) && ReservedBefore(ds, i) < 4
        invariant forall k :: 0 <= k < i ==> mdesc[k] == stamped[k]
        invariant forall k :: i <= k < mdesc.Length ==> mdesc[k] == ds[k]
      {
        var d := mdesc[i];
        if d.mode == PageMapped {
          var nsec := SectionCount(d);
          var next := pteOffset + nsec * 1024;   // stays a word: at most 4095 + 4095 * 1024
          NextOffset(pteOffset, ReservedBefore(ds, i), nsec, ReservedBefore(ds, i + 1));
          StampTable(mdesc, i, Wrap(TableAddr(base) + pteOffset), stamped, ds);
          pteOffset := next;
        } else {
          assert stamped[i] == WithTable(ds[i], base, ReservedBefore(ds, i));
        }
        if pteOffset >= 4096 {
          ReservedMonotone(ds, i + 1, |ds|);
          return false;
        }
        i := i + 1;
      }
      ok := true;
    }

    /** Descriptor `i` of the list, already stamped. */
    method InstallOne(d: MemDesc, ghost next: Word, ghost t: Tables, ghost ds: seq<MemDesc>, ghost i: nat,
                      ghost stamped: seq<MemDesc>, ghost states: seq<Tables>)
      returns (ghost next': Word)
      requires Valid() && t.Valid() && AllWellFormed(ds) && Disjoint(ds) && i < |ds|
      requires ReservedBefore(ds, |ds|) < 4 && NoneSpansAll(ds) && IsTrace(states, t, base, ds)
      requires IsStamped(stamped, ds, base) && d == stamped[i] && State(next) == states[i]
      modifies pgd, pte
      ensures State(next') == states[i + 1]
    {
      InitialisedStep(t, base, ds, i);
      assert d == WithTable(ds[i], base, ReservedBefore(ds, i)) == Stamped(ds, base)[i];
      assert State(next) == Initialised(t, base, ds, i);
      next' := next;
      if d.mode == SectMapped {
        CreatePgd(d, next);
      } else {
        NoneSpansInFour(ds);
        InitialisedSlots(t, base, ds, i);
        next' := CreatePte(d, next);
      }
      assert State(next') == Initialised(t, base, ds, i + 1);
    }

    /** The descriptor loop of rt_hw_mmu_init. */
    method InstallAll(mdesc: array<MemDesc>, ghost t: Tables, ghost ds: seq<MemDesc>,
                      ghost stamped: seq<MemDesc>, ghost states: seq<Tables>)
      requires Valid() && t.Valid() && AllWellFormed(ds) && Disjoint(ds)
      requires ReservedBefore(ds, |ds|) < 4 && NoneSpansAll(ds)
      requires IsStamped(stamped, ds, base) && mdesc[..] == stamped
      requires IsTrace(states, t, base, ds) && State(t.next) == states[0]
      modifies pgd, pte
      ensures TablesSeparate(pgd[..], base) <==> Roomy(ds)
      ensures WalksAsIntended(pgd[..], pte[..], base, ds) <==> SharersAgree(ds)
    {
      ghost var next := t.next;
      var i := 0;
      while i < mdesc.Length
        invariant 0 <= i <= mdesc.Length == |ds|
        invariant mdesc[..] == stamped
        invariant State(next) == states[i]
      {
        next := InstallOne(mdesc[i], next, t, ds, i, stamped, states);
        i := i + 1;
      }
      assert State(next) == Initialised(t, base, ds, |ds|);
      NoneSpansInFour(ds);
      InitialisedSeparate(t, base, ds);
      InitialisedWalks(t, base, ds);
    }

    method RtHwMmuInit(mdesc: array<MemDesc>) returns (ok: bool)
      requires Valid() && AllWellFormed(mdesc[..]) && Disjoint(mdesc[..]) && NoneSpansAll(mdesc[..])
      modifies pgd, pte, mdesc
      ensures ok <==> ReservedBefore(old(mdesc[..]), mdesc.Length) < 4
      ensures ok ==> (TablesSeparate(pgd[..], base) <==> Roomy(old(mdesc[..])))
      ensures ok ==> (WalksAsIntended(pgd[..], pte[..], base, old(mdesc[..])) <==> SharersAgree(old(mdesc[..])))
    {
      ghost var ds := mdesc[..];
      ghost var t := State(0);
      forall m | 0 <= m < 4096 {
        pgd[m] := 0;
      }
      forall k | 0 <= k < 1024 {
        pte[k] := 0;
      }
      assert pgd[..] == Cleared(t).pgd && pte[..] == Cleared(t).pte;
      ghost var states := Trace(t, base, ds);
      assert State(0) == Initialised(t, base, ds, 0) == states[0];
      assert mdesc[..] == ds;
      ok := BuildPteMemDesc(mdesc, Stamped(ds, base));
      if ok {
        InstallAll(mdesc, t, ds, Stamped(ds, base), states);
      }
    }
  }
}
