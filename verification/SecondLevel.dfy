/** What _pte_table holds after mmu_create_pte, and when a walk of both levels
    gives what the descriptor list asks for. */
module SecondLevel {
  import opened Words
  import opened PageWalk
  import opened FirstLevel

  /** Page number `a` of descriptor `j`. */
  function PageAt(ds: seq<MemDesc>, j: nat, a: nat): nat
    requires j < |ds|
  {
    ds[j].vaddrStart / 0x1000 + a
  }

  /** Page `a` of descriptor `j` is among those stored once the first `k` descriptors
      and the first `i` pages of descriptor `k` are installed. */
  predicate IsStored(ds: seq<MemDesc>, k: nat, i: nat, j: nat, a: nat) {
    && j < |ds| && ds[j].mode.PageMapped? && a < PageCount(ds[j])
    && (j < k || (j == k && a < i))
  }

  /** Where the second-level entry of virtual page `vp` lies in _pte_table, if its
      megabyte has a table. */
  function PlaceOf(ds: seq<MemDesc>, vp: nat): int {
    var o := Owner(ds, |ds|, vp / 256);
    if o < 0 then -1 else 256 * TableIndex(ds, o, vp / 256) + vp % 256
  }

  /** `w` is the entry of page `a` of descriptor `j`. */
  predicate IsEntryOf(w: Word, ds: seq<MemDesc>, j: nat, a: nat)
    requires j < |ds|
  {
    w % 4 >= 2 && w / 0x1000 == RegionOf(ds[j]).FrameOf(PageAt(ds, j, a))
  }

  /** Entry `slot` is that of a page stored there, or untouched. */
  ghost predicate SlotIs(w: Word, ds: seq<MemDesc>, k: nat, i: nat, slot: int) {
    if w == 0 then
      forall j: nat, a: nat {:trigger IsStored(ds, k, i, j, a)} ::
        IsStored(ds, k, i, j, a) ==> PlaceOf(ds, PageAt(ds, j, a)) != slot
    else
      exists j: nat, a: nat {:trigger IsStored(ds, k, i, j, a)} ::
        IsStored(ds, k, i, j, a) && PlaceOf(ds, PageAt(ds, j, a)) == slot && IsEntryOf(w, ds, j, a)
  }

  /** The cleared part of _pte_table. */
  ghost predicate Filled(pte: seq<Word>, ds: seq<MemDesc>, k: nat, i: nat) {
    |pte| == 4096 && forall slot {:trigger pte[slot]} :: 0 <= slot < 1024 ==> SlotIs(pte[slot], ds, k, i, slot)
  }

  lemma PageStored(pte: seq<Word>, ds: seq<MemDesc>, k: nat, i: nat, slot: int, w: Word)
    requires Filled(pte, ds, k, i) && k < |ds| && ds[k].mode.PageMapped? && i < PageCount(ds[k])
    requires 0 <= slot < 1024 && slot == PlaceOf(ds, PageAt(ds, k, i))
    requires IsEntryOf(w, ds, k, i)
    ensures Filled(pte[slot := w], ds, k, i + 1)
  {
    var pte' := pte[slot := w];
    forall s | 0 <= s < 1024
      ensures SlotIs(pte'[s], ds, k, i + 1, s)
    {
      assert IsStored(ds, k, i + 1, k, i);
      if s != slot {
        OtherSlot(pte[s], ds, k, i, s);
      }
    }
  }

  lemma OtherSlot(w: Word, ds: seq<MemDesc>, k: nat, i: nat, slot: int)
    requires SlotIs(w, ds, k, i, slot) && k < |ds| && slot != PlaceOf(ds, PageAt(ds, k, i))
    ensures SlotIs(w, ds, k, i + 1, slot)
  {
    if w == 0 {
      forall j: nat, a: nat | IsStored(ds, k, i + 1, j, a)
        ensures PlaceOf(ds, PageAt(ds, j, a)) != slot
      {
        assert IsStored(ds, k, i, j, a) || (j == k && a == i);
      }
    } else {
      var j: nat, a: nat :|
        IsStored(ds, k, i, j, a) && PlaceOf(ds, PageAt(ds, j, a)) == slot && IsEntryOf(w, ds, j, a);
      assert IsStored(ds, k, i + 1, j, a);
    }
  }

  /** All pages of a descriptor, or a section, and on to the next descriptor. */
  lemma NextDescriptor(pte: seq<Word>, ds: seq<MemDesc>, k: nat, i: nat)
    requires Filled(pte, ds, k, i) && k < |ds|
    requires if ds[k].mode.PageMapped? then i == PageCount(ds[k]) else i == 0
    ensures Filled(pte, ds, k + 1, 0)
  {
    forall slot | 0 <= slot < 1024
      ensures SlotIs(pte[slot], ds, k + 1, 0, slot)
    {
      SameStored(pte[slot], ds, k, i, slot);
    }
  }

  lemma SameStored(w: Word, ds: seq<MemDesc>, k: nat, i: nat, slot: int)
    requires SlotIs(w, ds, k, i, slot) && k < |ds|
    requires if ds[k].mode.PageMapped? then i == PageCount(ds[k]) else i == 0
    ensures SlotIs(w, ds, k + 1, 0, slot)
  {
    if w == 0 {
      forall j: nat, a: nat | IsStored(ds, k + 1, 0, j, a)
        ensures PlaceOf(ds, PageAt(ds, j, a)) != slot
      {
        assert IsStored(ds, k, i, j, a);
      }
    } else {
      var j: nat, a: nat :|
        IsStored(ds, k, i, j, a) && PlaceOf(ds, PageAt(ds, j, a)) == slot && IsEntryOf(w, ds, j, a);
      assert IsStored(ds, k + 1, 0, j, a);
    }
  }

  // ----- what the list intends

  /** A page that a descriptor covers is intended to be what that descriptor maps. */
  lemma CoveredIsIntended(ds: seq<MemDesc>, j: nat, vp: int)
    requires Disjoint(ds) && j < |ds| && RegionOf(ds[j]).Covers(vp)
    ensures Lookup(Regions(ds), vp) == Mapped(RegionOf(ds[j]).FrameOf(vp))
  {
    var rs := Regions(ds);
    forall i | 0 <= i < |rs| && i != j
      ensures !rs[i].Covers(vp)
    {
      if i < j {
        CoveredOnce(ds, i, j, vp);
      } else {
        CoveredOnce(ds, j, i, vp);
      }
    }
    LookupFound(rs, j, vp);
  }

  lemma CoveredOnce(ds: seq<MemDesc>, i: nat, j: nat, vp: int)
    requires Disjoint(ds) && i < j < |ds|
    ensures !(RegionOf(ds[i]).Covers(vp) && RegionOf(ds[j]).Covers(vp))
  {
    assert Apart(RegionOf(ds[i]), RegionOf(ds[j]));
    CoveredTouches(RegionOf(ds[i]), vp);
    CoveredTouches(RegionOf(ds[j]), vp);
  }

  lemma CoveredTouches(r: Region, vp: int)
    ensures r.Covers(vp) ==> r.Touches(vp / 256)
  {
  }

  lemma StoredIsIntended(ds: seq<MemDesc>, j: nat, a: nat)
    requires Disjoint(ds) && IsStored(ds, |ds|, 0, j, a)
    ensures Lookup(Regions(ds), PageAt(ds, j, a)) == Mapped(RegionOf(ds[j]).FrameOf(PageAt(ds, j, a)))
    ensures PageAt(ds, j, a) < 0x10_0000 && PlaceOf(ds, PageAt(ds, j, a)) >= 0
  {
    var vp := PageAt(ds, j, a);
    CoveredIsIntended(ds, j, vp);
    OwnerExists(ds, |ds|, j, vp / 256);
  }

  lemma {:induction false} OwnerExists(ds: seq<MemDesc>, k: nat, j: nat, m: int)
    requires j < k <= |ds| && Enters(ds[j], m)
    ensures Owner(ds, k, m) >= 0
  {
    if j < k - 1 {
      OwnerExists(ds, k - 1, j, m);
    }
  }

  // ----- the walk

  /** Megabytes that are given the same table intend the same, page by page. */
  ghost predicate SharersAgree(ds: seq<MemDesc>) {
    forall p: nat, q: nat {:trigger PlaceOf(ds, p), PlaceOf(ds, q)} ::
      p < 0x10_0000 && q < 0x10_0000 && PlaceOf(ds, p) == PlaceOf(ds, q) >= 0 ==>
        Lookup(Regions(ds), p) == Lookup(Regions(ds), q)
  }

  /** Only the four cleared tables are taken. */
  ghost predicate InFour(ds: seq<MemDesc>) {
    forall k {:trigger Fresh(ds, k)} :: 0 <= k < |ds| ==>
      Fresh(ds, k) == 0 || ReservedBefore(ds, k) + Fresh(ds, k) <= 4
  }

  /** Both levels of the finished tables. */
  ghost predicate Finished(pgd: seq<Word>, pte: seq<Word>, base: Word, ds: seq<MemDesc>) {
    && Base(base) && AllWellFormed(ds) && Disjoint(ds) && InFour(ds)
    && Directory(pgd, base, ds, |ds|, 0) && Filled(pte, ds, |ds|, 0)
  }

  /** The walk of a page whose megabyte has a table reads that page's place. */
  lemma WalkReadsPlace(pgd: seq<Word>, pte: seq<Word>, base: Word, ds: seq<MemDesc>, vp: nat)
    requires Finished(pgd, pte, base, ds) && vp < 0x10_0000 && PlaceOf(ds, vp) >= 0
    ensures 0 <= PlaceOf(ds, vp) < 1024
    ensures WalkPage(pgd, pte, base, vp) == Leaf(pte[PlaceOf(ds, vp)], vp)
  {
    var m := vp / 256;
    assert EntryIs(pgd[m], base, ds, |ds|, 0, m);
    var o := TableOf(pgd, base, ds, m);
    assert Fresh(ds, o) > 0;
    PlaceInTable(pgd[m], base, TableIndex(ds, o, m), vp);
  }

  lemma PlaceInTable(e: Word, base: Word, index: nat, vp: nat)
    requires Base(base) && index < 4 && TableAddr(e) == Wrap(base + 1024 * index)
    ensures InPteTable(TableAddr(e), base) && PteIndex(e, base, vp) == 256 * index + vp % 256
  {
  }

  lemma SectionWalks(pgd: seq<Word>, pte: seq<Word>, base: Word, ds: seq<MemDesc>, s: nat, vp: nat)
    requires |pgd| == 4096 && |pte| == 4096 && Disjoint(ds) && vp < 0x10_0000
    requires s < |ds| && WellFormed(ds[s]) && Spans(ds[s], vp / 256)
    requires pgd[vp / 256] == SectionEntry(ds[s], vp / 256 - ds[s].vaddrStart / 0x10_0000)
    ensures WalkPage(pgd, pte, base, vp) == Lookup(Regions(ds), vp)
  {
    SectionEntryFrame(ds[s], vp / 256 - ds[s].vaddrStart / 0x10_0000, vp % 256);
    SectionCovers(ds[s], vp);
    CoveredIsIntended(ds, s, vp);
  }

  /** A megabyte without a table is a section, as its descriptor intends, or faults. */
  lemma WalkElsewhere(pgd: seq<Word>, pte: seq<Word>, base: Word, ds: seq<MemDesc>, vp: nat)
    requires Finished(pgd, pte, base, ds) && vp < 0x10_0000 && PlaceOf(ds, vp) < 0
    ensures WalkPage(pgd, pte, base, vp) == Lookup(Regions(ds), vp)
  {
    assert EntryIs(pgd[vp / 256], base, ds, |ds|, 0, vp / 256);
    var s := SectionOf(ds, |ds|, vp / 256);
    if s >= 0 {
      assert WellFormed(ds[s]);
      SectionWalks(pgd, pte, base, ds, s, vp);
    } else {
      NothingCovers(ds, vp);
    }
  }

  lemma NothingCovers(ds: seq<MemDesc>, vp: nat)
    requires Owner(ds, |ds|, vp / 256) < 0 && SectionOf(ds, |ds|, vp / 256) < 0
    ensures Lookup(Regions(ds), vp) == Fault
  {
    forall i | 0 <= i < |ds|
      ensures !RegionOf(ds[i]).Covers(vp)
    {
      CoveredTouches(RegionOf(ds[i]), vp);
      if RegionOf(ds[i]).Covers(vp) {
        if ds[i].mode.PageMapped? {
          EntersTouches(ds[i], vp / 256);
          OwnerExists(ds, |ds|, i, vp / 256);
        } else {
          SpansTouches(ds[i], vp / 256);
          SectionExists(ds, |ds|, i, vp / 256);
        }
      }
    }
    LookupFault(Regions(ds), vp);
  }

  lemma {:induction false} SectionExists(ds: seq<MemDesc>, k: nat, j: nat, m: int)
    requires j < k <= |ds| && Spans(ds[j], m)
    ensures SectionOf(ds, k, m) >= 0
  {
    if j < k - 1 {
      SectionExists(ds, k - 1, j, m);
    }
  }

  lemma CoveredIsStored(ds: seq<MemDesc>, j: nat, vp: nat) returns (a: nat)
    requires j < |ds| && ds[j].mode.PageMapped? && RegionOf(ds[j]).Covers(vp)
    ensures IsStored(ds, |ds|, 0, j, a) && PageAt(ds, j, a) == vp
  {
    a := vp - ds[j].vaddrStart / 0x1000;
  }

  /** A page in a megabyte with a table that no store reached is covered by nothing. */
  lemma UnstoredFaults(ds: seq<MemDesc>, vp: nat)
    requires Disjoint(ds) && PlaceOf(ds, vp) >= 0 && SlotIs(0, ds, |ds|, 0, PlaceOf(ds, vp))
    ensures Lookup(Regions(ds), vp) == Fault
  {
    forall i | 0 <= i < |ds|
      ensures !RegionOf(ds[i]).Covers(vp)
    {
      CoveredTouches(RegionOf(ds[i]), vp);
      if RegionOf(ds[i]).Covers(vp) {
        if ds[i].mode.PageMapped? {
          var a := CoveredIsStored(ds, i, vp);
        } else {
          SpansTouches(ds[i], vp / 256);
          TouchedOnce(ds, i, Owner(ds, |ds|, vp / 256), vp / 256);
        }
      }
    }
    LookupFault(Regions(ds), vp);
  }

  /** One that is stored over is intended to be what was stored, if the sharers agree. */
  lemma StoredWalks(w: Word, ds: seq<MemDesc>, vp: nat)
    requires Disjoint(ds) && SharersAgree(ds) && vp < 0x10_0000 && PlaceOf(ds, vp) >= 0
    requires w != 0 && SlotIs(w, ds, |ds|, 0, PlaceOf(ds, vp))
    ensures w % 4 >= 2 && Lookup(Regions(ds), vp) == Mapped(w / 0x1000)
  {
    var j: nat, a: nat :|
      IsStored(ds, |ds|, 0, j, a) && PlaceOf(ds, PageAt(ds, j, a)) == PlaceOf(ds, vp) && IsEntryOf(w, ds, j, a);
    StoredIsIntended(ds, j, a);
    assert Lookup(Regions(ds), vp) == Lookup(Regions(ds), PageAt(ds, j, a));
  }

  lemma PlaceWalks(w: Word, ds: seq<MemDesc>, vp: nat)
    requires Disjoint(ds) && SharersAgree(ds) && vp < 0x10_0000 && PlaceOf(ds, vp) >= 0
    requires SlotIs(w, ds, |ds|, 0, PlaceOf(ds, vp))
    ensures Leaf(w, vp) == Lookup(Regions(ds), vp)
  {
    if w == 0 {
      UnstoredFaults(ds, vp);
    } else {
      StoredWalks(w, ds, vp);
    }
  }

  lemma AgreeingWalks(pgd: seq<Word>, pte: seq<Word>, base: Word, ds: seq<MemDesc>, vp: nat)
    requires Finished(pgd, pte, base, ds) && SharersAgree(ds) && vp < 0x10_0000
    ensures WalkPage(pgd, pte, base, vp) == Lookup(Regions(ds), vp)
  {
    if PlaceOf(ds, vp) < 0 {
      WalkElsewhere(pgd, pte, base, ds, vp);
    } else {
      WalkReadsPlace(pgd, pte, base, ds, vp);
      assert SlotIs(pte[PlaceOf(ds, vp)], ds, |ds|, 0, PlaceOf(ds, vp));
      PlaceWalks(pte[PlaceOf(ds, vp)], ds, vp);
    }
  }

  /** A walk does not tell apart two pages with the same place. */
  lemma SamePlaceSameWalk(pgd: seq<Word>, pte: seq<Word>, base: Word, ds: seq<MemDesc>, p: nat, q: nat)
    requires Finished(pgd, pte, base, ds) && p < 0x10_0000 && q < 0x10_0000
    requires PlaceOf(ds, p) == PlaceOf(ds, q) >= 0
    ensures WalkPage(pgd, pte, base, p) == WalkPage(pgd, pte, base, q)
  {
    WalkReadsPlace(pgd, pte, base, ds, p);
    WalkReadsPlace(pgd, pte, base, ds, q);
    var w := pte[PlaceOf(ds, p)];
    assert SlotIs(w, ds, |ds|, 0, PlaceOf(ds, p));
    assert w == 0 || w % 4 >= 2;
  }

  /** The walk agrees with the list if and only if megabytes that are given the same
      table intend the same. */
  lemma WalkExact(pgd: seq<Word>, pte: seq<Word>, base: Word, ds: seq<MemDesc>)
    requires Finished(pgd, pte, base, ds)
    ensures (forall vp: nat {:trigger WalkPage(pgd, pte, base, vp)} ::
               vp < 0x10_0000 ==> WalkPage(pgd, pte, base, vp) == Lookup(Regions(ds), vp))
            <==> SharersAgree(ds)
  {
    if SharersAgree(ds) {
      forall vp: nat | vp < 0x10_0000
        ensures WalkPage(pgd, pte, base, vp) == Lookup(Regions(ds), vp)
      {
        AgreeingWalks(pgd, pte, base, ds, vp);
      }
    } else {
      var p: nat, q: nat :| p < 0x10_0000 && q < 0x10_0000 && PlaceOf(ds, p) == PlaceOf(ds, q) >= 0
                            && Lookup(Regions(ds), p) != Lookup(Regions(ds), q);
      SamePlaceSameWalk(pgd, pte, base, ds, p, q);
    }
  }

  // ----- sufficient conditions

  /** Without sharing there is nothing to agree on. */
  lemma RoomyAgrees(ds: seq<MemDesc>)
    requires Roomy(ds)
    ensures InFour(ds) && SharersAgree(ds)
  {
    forall p: nat, q: nat | p < 0x10_0000 && q < 0x10_0000 && PlaceOf(ds, p) == PlaceOf(ds, q) >= 0
      ensures Lookup(Regions(ds), p) == Lookup(Regions(ds), q)
    {
      PlaceIsOwn(ds, p, q);
    }
  }

  lemma PlaceIsOwn(ds: seq<MemDesc>, p: nat, q: nat)
    requires Roomy(ds) && p < 0x10_0000 && q < 0x10_0000 && PlaceOf(ds, p) == PlaceOf(ds, q) >= 0
    ensures p == q
  {
    var m, n := p / 256, q / 256;
    var o, s := Owner(ds, |ds|, m), Owner(ds, |ds|, n);
    OwnerIsFresh(ds, |ds|, m);
    OwnerIsFresh(ds, |ds|, n);
    FreshGrows(ds, o, m, 4096);
    FreshGrows(ds, s, n, 4096);
    if m < n {
      DistinctTables(ds, o, m, s, n);
    } else if n < m {
      DistinctTables(ds, s, n, o, m);
    }
  }

  /** A list whose page-mapped ranges end inside a megabyte, none of them over
      everything, takes just the tables set aside. */
  lemma InsideIsRoomy(ds: seq<MemDesc>)
    requires forall k {:trigger ds[k]} :: 0 <= k < |ds| && ds[k].mode.PageMapped? ==>
               ds[k].vaddrEnd % 0x10_0000 != 0 && !SpansAll(ds[k])
    requires ReservedBefore(ds, |ds|) < 4
    ensures Roomy(ds)
  {
    forall k | 0 <= k < |ds|
      ensures Fresh(ds, k) <= Reserved(ds[k])
    {
      TakesReserved(ds, k);
    }
    forall k | 0 <= k < |ds|
      ensures Fresh(ds, k) == 0 || ReservedBefore(ds, k) + Fresh(ds, k) <= 4
    {
      ReservedMonotone(ds, k + 1, |ds|);
    }
    forall i, j | 0 <= i < j < |ds|
      ensures RangesApart(ds, i, j)
    {
      ReservedMonotone(ds, i + 1, j);
    }
  }

  lemma TakesReserved(ds: seq<MemDesc>, k: nat)
    requires k < |ds|
    requires ds[k].mode.PageMapped? ==> ds[k].vaddrEnd % 0x10_0000 != 0 && !SpansAll(ds[k])
    ensures Fresh(ds, k) <= Reserved(ds[k])
  {
    if ds[k].mode.SectMapped? {
      NoneFresh(ds, k, 4096);
    } else {
      FreshWithin(ds, k, 4096);
      ReservationExact(ds[k]);
    }
  }
}
