/** Which second-level table each megabyte gets from mmu_create_pte, and when no
    two megabytes get the same one. */
module FirstLevel {
  import opened Words
  import opened PageWalk

  /** Page-mapped descriptor `d` reaches into megabyte `m`. */
  predicate Enters(d: MemDesc, m: int) {
    d.mode.PageMapped? && d.vaddrStart / 0x10_0000 <= m <= d.vaddrEnd / 0x10_0000
  }

  /** The first of the `k` first descriptors that enters megabyte `m`, or -1. */
  function Owner(ds: seq<MemDesc>, k: nat, m: int): (o: int)
    requires k <= |ds|
    ensures -1 <= o < k
    ensures o >= 0 ==> Enters(ds[o], m)
  {
    if k == 0 then -1
    else
      var o := Owner(ds, k - 1, m);
      if o >= 0 then o else if Enters(ds[k - 1], m) then k - 1 else -1
  }

  /** Descriptor `k` is the first to enter megabyte `m`. */
  predicate IsFresh(ds: seq<MemDesc>, k: nat, m: int)
    requires k < |ds|
  {
    Enters(ds[k], m) && Owner(ds, k, m) < 0
  }

  /** How many megabytes below `m` descriptor `k` is the first to enter. */
  function FreshBelow(ds: seq<MemDesc>, k: nat, m: nat): nat
    requires k < |ds|
  {
    if m == 0 then 0 else FreshBelow(ds, k, m - 1) + if IsFresh(ds, k, m - 1) then 1 else 0
  }

  /** The tables that descriptor `k` takes, as against `Reserved`, those set aside. */
  function Fresh(ds: seq<MemDesc>, k: nat): nat
    requires k < |ds|
  {
    FreshBelow(ds, k, 4096)
  }

  /** The table that descriptor `k` takes for a megabyte it is the first to enter. */
  function TableIndex(ds: seq<MemDesc>, k: nat, m: nat): nat
    requires k < |ds|
  {
    ReservedBefore(ds, k) + FreshBelow(ds, k, m)
  }

  /** The tables taken for two descriptors do not overlap. */
  predicate RangesApart(ds: seq<MemDesc>, i: nat, j: nat)
    requires i < |ds| && j < |ds|
  {
    || Fresh(ds, i) == 0 || Fresh(ds, j) == 0
    || ReservedBefore(ds, i) + Fresh(ds, i) <= ReservedBefore(ds, j)
    || ReservedBefore(ds, j) + Fresh(ds, j) <= ReservedBefore(ds, i)
  }

  /** Every descriptor takes tables out of the four that are cleared, and no two
      descriptors take the same. */
  ghost predicate Roomy(ds: seq<MemDesc>) {
    && (forall k {:trigger Fresh(ds, k)} :: 0 <= k < |ds| ==>
          Fresh(ds, k) == 0 || ReservedBefore(ds, k) + Fresh(ds, k) <= 4)
    && (forall i, j {:trigger RangesApart(ds, i, j)} :: 0 <= i < j < |ds| ==> RangesApart(ds, i, j))
  }

  // ----- counting

  lemma {:induction false} OwnerStays(ds: seq<MemDesc>, i: nat, k: nat, m: int)
    requires i < k <= |ds| && IsFresh(ds, i, m)
    ensures Owner(ds, k, m) == i
  {
    if i < k - 1 {
      OwnerStays(ds, i, k - 1, m);
    }
  }

  lemma {:induction false} OwnerIsFresh(ds: seq<MemDesc>, k: nat, m: int)
    requires k <= |ds| && Owner(ds, k, m) >= 0
    ensures IsFresh(ds, Owner(ds, k, m), m)
  {
    if Owner(ds, k - 1, m) >= 0 {
      OwnerIsFresh(ds, k - 1, m);
    }
  }

  lemma {:induction false} FreshGrows(ds: seq<MemDesc>, k: nat, m: nat, n: nat)
    requires k < |ds| && m <= n
    ensures FreshBelow(ds, k, m) <= FreshBelow(ds, k, n)
    ensures m < n && IsFresh(ds, k, m) ==> FreshBelow(ds, k, m) < FreshBelow(ds, k, n)
  {
    if m < n {
      FreshGrows(ds, k, m, n - 1);
    }
  }

  /** The megabytes of a descriptor that no earlier one entered are numbered from 0. */
  lemma {:induction false} FreshAt(ds: seq<MemDesc>, k: nat, n: nat, r: nat) returns (m: nat)
    requires k < |ds| && r < FreshBelow(ds, k, n)
    ensures m < n && IsFresh(ds, k, m) && FreshBelow(ds, k, m) == r
  {
    if r < FreshBelow(ds, k, n - 1) {
      m := FreshAt(ds, k, n - 1, r);
    } else {
      m := n - 1;
    }
  }

  lemma {:induction false} FreshWithin(ds: seq<MemDesc>, k: nat, m: nat)
    requires k < |ds|
    ensures var first, last := ds[k].vaddrStart / 0x10_0000, ds[k].vaddrEnd / 0x10_0000;
            && (m <= first ==> FreshBelow(ds, k, m) == 0)
            && (first < m <= last + 1 ==> FreshBelow(ds, k, m) <= m - first)
            && (m > last ==> FreshBelow(ds, k, m) == FreshBelow(ds, k, last + 1) <= last + 1 - first)
  {
    if m > 0 {
      FreshWithin(ds, k, m - 1);
    }
  }

  lemma {:induction false} ReservedMonotone(ds: seq<MemDesc>, i: nat, j: nat)
    requires i <= j <= |ds|
    ensures ReservedBefore(ds, i) <= ReservedBefore(ds, j)
    decreases j - i
  {
    if i < j {
      ReservedMonotone(ds, i + 1, j);
    }
  }

  /** The one page-mapped range for which the reservation wraps around to nothing. */
  predicate SpansAll(d: MemDesc) {
    d.mode.PageMapped? && d.vaddrStart < 0x10_0000 && d.vaddrEnd > 0xFFF0_0000
  }

  lemma ShortByOne(d: MemDesc)
    requires d.mode.PageMapped? && !SpansAll(d)
    ensures TablesNeeded(d) <= Reserved(d) + 1
  {
  }

  /** Otherwise the reservation is at most one short, so that a list that passes the
      bound check takes none but the first four tables. */
  lemma FreshBounded(ds: seq<MemDesc>, k: nat)
    requires k < |ds| && ReservedBefore(ds, |ds|) < 4 && !SpansAll(ds[k])
    ensures Fresh(ds, k) == 0 || ReservedBefore(ds, k) + Fresh(ds, k) <= 4
  {
    if ds[k].mode.SectMapped? {
      NoneFresh(ds, k, 4096);
    } else {
      FreshWithin(ds, k, 4096);
      ShortByOne(ds[k]);
      ReservedMonotone(ds, k + 1, |ds|);
      assert Fresh(ds, k) <= TablesNeeded(ds[k]);
      assert ReservedBefore(ds, k + 1) == ReservedBefore(ds, k) + Reserved(ds[k]);
    }
  }

  lemma {:induction false} NoneFresh(ds: seq<MemDesc>, k: nat, m: nat)
    requires k < |ds| && ds[k].mode.SectMapped?
    ensures FreshBelow(ds, k, m) == 0
  {
    if m > 0 {
      NoneFresh(ds, k, m - 1);
    }
  }

  // ----- the first-level table

  predicate Spans(d: MemDesc, m: int) {
    d.mode.SectMapped? && d.vaddrStart / 0x10_0000 <= m <= d.vaddrEnd / 0x10_0000
  }

  /** The first of the `k` first descriptors that maps megabyte `m` as a section, or -1. */
  function SectionOf(ds: seq<MemDesc>, k: nat, m: int): (o: int)
    requires k <= |ds|
    ensures -1 <= o < k
    ensures o >= 0 ==> Spans(ds[o], m)
  {
    if k == 0 then -1
    else
      var o := SectionOf(ds, k - 1, m);
      if o >= 0 then o else if Spans(ds[k - 1], m) then k - 1 else -1
  }

  predicate IsTableOf(e: Word, base: Word, ds: seq<MemDesc>, o: nat, m: nat)
    requires o < |ds|
  {
    e % 4 == 1 && TableAddr(e) == Wrap(base + 1024 * TableIndex(ds, o, m))
  }

  /** Entry `m` once the first `k` descriptors are installed, and of page-mapped
      descriptor `k` the megabytes below `top`. */
  predicate EntryIs(e: Word, base: Word, ds: seq<MemDesc>, k: nat, top: int, m: nat)
    requires k <= |ds|
  {
    if Owner(ds, k, m) >= 0 then IsTableOf(e, base, ds, Owner(ds, k, m), m)
    else if k < |ds| && Enters(ds[k], m) && m < top then IsTableOf(e, base, ds, k, m)
    else if SectionOf(ds, k, m) >= 0 then
      var d := ds[SectionOf(ds, k, m)];
      e == SectionEntry(d, m - d.vaddrStart / 0x10_0000)
    else e == 0
  }

  ghost predicate Directory(pgd: seq<Word>, base: Word, ds: seq<MemDesc>, k: nat, top: int)
    requires k <= |ds|
  {
    |pgd| == 4096 && forall m :: 0 <= m < 4096 ==> EntryIs(pgd[m], base, ds, k, top, m)
  }

  /** A megabyte that is part of a section is part of no other descriptor. */
  lemma TouchedOnce(ds: seq<MemDesc>, i: nat, j: nat, m: int)
    requires Disjoint(ds) && i < |ds| && j < |ds| && Spans(ds[i], m) && (Spans(ds[j], m) || Enters(ds[j], m))
    ensures i == j
  {
    SpansTouches(ds[i], m);
    if ds[j].mode.SectMapped? {
      SpansTouches(ds[j], m);
    } else {
      EntersTouches(ds[j], m);
    }
    if i < j {
      SectionApart(ds, i, j, m);
    } else if j < i {
      SectionApart(ds, j, i, m);
    }
  }

  lemma SectionApart(ds: seq<MemDesc>, i: nat, j: nat, m: int)
    requires Disjoint(ds) && i < j < |ds| && (ds[i].mode.SectMapped? || ds[j].mode.SectMapped?)
    ensures RegionOf(ds[i]).Touches(m) ==> !RegionOf(ds[j]).Touches(m)
  {
    assert Apart(RegionOf(ds[i]), RegionOf(ds[j]));
  }

  lemma NoSectionIn(ds: seq<MemDesc>, k: nat, i: nat, m: int)
    requires Disjoint(ds) && i <= |ds| && k < |ds| && Enters(ds[k], m)
    ensures SectionOf(ds, i, m) < 0
  {
    if SectionOf(ds, i, m) >= 0 {
      TouchedOnce(ds, SectionOf(ds, i, m), k, m);
    }
  }

  lemma SpansTouches(d: MemDesc, m: int)
    requires d.mode.SectMapped?
    ensures Spans(d, m) <==> RegionOf(d).Touches(m)
  {
  }

  lemma EntersTouches(d: MemDesc, m: int)
    requires d.mode.PageMapped?
    ensures Enters(d, m) <==> RegionOf(d).Touches(m)
  {
  }

  /** A megabyte of descriptor `k` is vacant exactly if the descriptor is the first
      to enter it and has not entered it yet. */
  lemma Vacant(pgd: seq<Word>, base: Word, ds: seq<MemDesc>, k: nat, top: nat, m: nat)
    requires k < |ds| && m < 4096 && Disjoint(ds) && Directory(pgd, base, ds, k, top)
    requires Enters(ds[k], m) && m <= top <= m + 1
    ensures pgd[m] == 0 <==> top == m && IsFresh(ds, k, m)
  {
    NoSectionIn(ds, k, k, m);
    assert EntryIs(pgd[m], base, ds, k, top, m);
  }

  lemma EnterMegabyte(pgd: seq<Word>, base: Word, ds: seq<MemDesc>, k: nat, m: nat, e: Word)
    requires k < |ds| && m < 4096 && Directory(pgd, base, ds, k, m)
    requires IsFresh(ds, k, m) && IsTableOf(e, base, ds, k, m)
    ensures Directory(pgd[m := e], base, ds, k, m + 1)
  {
    var pgd' := pgd[m := e];
    forall n | 0 <= n < 4096
      ensures EntryIs(pgd'[n], base, ds, k, m + 1, n)
    {
      assert EntryIs(pgd[n], base, ds, k, m, n);
    }
  }

  lemma PassMegabyte(pgd: seq<Word>, base: Word, ds: seq<MemDesc>, k: nat, top: nat, m: nat)
    requires k < |ds| && m < 4096 && Disjoint(ds) && Directory(pgd, base, ds, k, top)
    requires Enters(ds[k], m) && m <= top <= m + 1 && pgd[m] != 0
    ensures Directory(pgd, base, ds, k, m + 1) && FreshBelow(ds, k, m + 1) == FreshBelow(ds, k, top)
  {
    Vacant(pgd, base, ds, k, top, m);
    forall n | 0 <= n < 4096
      ensures EntryIs(pgd[n], base, ds, k, m + 1, n)
    {
      assert EntryIs(pgd[n], base, ds, k, top, n);
    }
  }

  lemma PagesEntered(pgd: seq<Word>, base: Word, ds: seq<MemDesc>, k: nat)
    requires k < |ds| && ds[k].mode.PageMapped?
    requires Directory(pgd, base, ds, k, ds[k].vaddrEnd / 0x10_0000 + 1)
    ensures Directory(pgd, base, ds, k + 1, 0)
  {
    forall m | 0 <= m < 4096
      ensures EntryIs(pgd[m], base, ds, k + 1, 0, m)
    {
      assert EntryIs(pgd[m], base, ds, k, ds[k].vaddrEnd / 0x10_0000 + 1, m);
    }
  }

  lemma SectionsEntered(pgd: seq<Word>, pgd': seq<Word>, base: Word, ds: seq<MemDesc>, k: nat)
    requires k < |ds| && ds[k].mode.SectMapped? && Disjoint(ds)
    requires Directory(pgd, base, ds, k, 0) && |pgd'| == 4096
    requires forall m :: 0 <= m < 4096 ==>
      pgd'[m] == if Spans(ds[k], m) then SectionEntry(ds[k], m - ds[k].vaddrStart / 0x10_0000) else pgd[m]
    ensures Directory(pgd', base, ds, k + 1, 0)
  {
    forall m | 0 <= m < 4096
      ensures EntryIs(pgd'[m], base, ds, k + 1, 0, m)
    {
      assert EntryIs(pgd[m], base, ds, k, 0, m);
      if Spans(ds[k], m) {
        SectionIsFirst(ds, k, m);
      }
    }
  }

  lemma SectionIsFirst(ds: seq<MemDesc>, k: nat, m: int)
    requires Disjoint(ds) && k < |ds| && Spans(ds[k], m)
    ensures Owner(ds, k, m) < 0 && SectionOf(ds, k, m) < 0
  {
    if Owner(ds, k, m) >= 0 {
      TouchedOnce(ds, k, Owner(ds, k, m), m);
    } else if SectionOf(ds, k, m) >= 0 {
      TouchedOnce(ds, k, SectionOf(ds, k, m), m);
    }
  }

  // ----- no two megabytes share a table

  /** Second-level tables of distinct megabytes are disjoint 1 KB blocks, all
      inside the 4096 bytes that rt_hw_mmu_init clears. */
  ghost predicate TablesSeparate(pgd: seq<Word>, base: Word) {
    && (forall m :: 0 <= m < |pgd| && pgd[m] % 4 == 1 ==>
          base <= TableAddr(pgd[m]) && TableAddr(pgd[m]) + 1024 <= base + 4096)
    && (forall m, n :: 0 <= m < |pgd| && 0 <= n < |pgd| && m != n && pgd[m] % 4 == 1 && pgd[n] % 4 == 1 ==>
          TableAddr(pgd[m]) + 1024 <= TableAddr(pgd[n]) || TableAddr(pgd[n]) + 1024 <= TableAddr(pgd[m]))
  }

  ghost predicate Base(base: Word) {
    base % 1024 == 0 && base + 0x4000 <= 0x1_0000_0000
  }

  /** The table of a megabyte in use. */
  lemma TableOf(pgd: seq<Word>, base: Word, ds: seq<MemDesc>, m: nat) returns (o: nat)
    requires Directory(pgd, base, ds, |ds|, 0) && AllWellFormed(ds) && m < 4096 && pgd[m] % 4 == 1
    ensures o < |ds| && o == Owner(ds, |ds|, m) && IsFresh(ds, o, m) && IsTableOf(pgd[m], base, ds, o, m)
    ensures FreshBelow(ds, o, m) < Fresh(ds, o)
  {
    assert EntryIs(pgd[m], base, ds, |ds|, 0, m);
    var s := SectionOf(ds, |ds|, m);
    if s >= 0 {
      assert WellFormed(ds[s]);
      SectionEntryFrame(ds[s], m - ds[s].vaddrStart / 0x10_0000, 0);
    }
    o := Owner(ds, |ds|, m);
    OwnerIsFresh(ds, |ds|, m);
    FreshGrows(ds, o, m, 4096);
  }

  /** The megabyte for which descriptor `k` takes table `index`. */
  lemma MegabyteOf(pgd: seq<Word>, base: Word, ds: seq<MemDesc>, k: nat, index: nat) returns (m: nat)
    requires Directory(pgd, base, ds, |ds|, 0) && AllWellFormed(ds) && Base(base) && k < |ds|
    requires ReservedBefore(ds, k) <= index < ReservedBefore(ds, k) + Fresh(ds, k) && index <= 4
    ensures m < 4096 && Owner(ds, |ds|, m) == k && pgd[m] % 4 == 1 && TableAddr(pgd[m]) == base + 1024 * index
  {
    m := FreshAt(ds, k, 4096, index - ReservedBefore(ds, k));
    OwnerStays(ds, k, |ds|, m);
    assert EntryIs(pgd[m], base, ds, |ds|, 0, m);
  }

  lemma RoomyTable(pgd: seq<Word>, base: Word, ds: seq<MemDesc>, m: nat) returns (o: nat)
    requires Directory(pgd, base, ds, |ds|, 0) && AllWellFormed(ds) && Base(base) && Roomy(ds) && m < 4096 && pgd[m] % 4 == 1
    ensures o < |ds| && IsFresh(ds, o, m) && TableIndex(ds, o, m) < ReservedBefore(ds, o) + Fresh(ds, o) <= 4
    ensures TableAddr(pgd[m]) == base + 1024 * TableIndex(ds, o, m)
  {
    o := TableOf(pgd, base, ds, m);
  }

  lemma DistinctTables(ds: seq<MemDesc>, o: nat, m: nat, p: nat, n: nat)
    requires Roomy(ds) && o < |ds| && p < |ds| && m < n
    requires IsFresh(ds, o, m) && TableIndex(ds, o, m) < ReservedBefore(ds, o) + Fresh(ds, o)
    requires IsFresh(ds, p, n) && TableIndex(ds, p, n) < ReservedBefore(ds, p) + Fresh(ds, p)
    ensures TableIndex(ds, o, m) != TableIndex(ds, p, n)
  {
    if o == p {
      FreshGrows(ds, o, m, n);
    } else if o < p {
      assert RangesApart(ds, o, p);
    } else {
      assert RangesApart(ds, p, o);
    }
  }

  lemma RoomyApart(pgd: seq<Word>, base: Word, ds: seq<MemDesc>, m: nat, n: nat)
    requires Directory(pgd, base, ds, |ds|, 0) && AllWellFormed(ds) && Base(base) && Roomy(ds)
    requires m < n < 4096 && pgd[m] % 4 == 1 && pgd[n] % 4 == 1
    ensures TableAddr(pgd[m]) + 1024 <= TableAddr(pgd[n]) || TableAddr(pgd[n]) + 1024 <= TableAddr(pgd[m])
  {
    var o := RoomyTable(pgd, base, ds, m);
    var p := RoomyTable(pgd, base, ds, n);
    DistinctTables(ds, o, m, p, n);
  }

  lemma RoomySeparates(pgd: seq<Word>, base: Word, ds: seq<MemDesc>)
    requires Directory(pgd, base, ds, |ds|, 0) && AllWellFormed(ds) && Base(base) && Roomy(ds)
    ensures TablesSeparate(pgd, base)
  {
    forall m | 0 <= m < |pgd| && pgd[m] % 4 == 1
      ensures base <= TableAddr(pgd[m]) && TableAddr(pgd[m]) + 1024 <= base + 4096
    {
      var o := RoomyTable(pgd, base, ds, m);
    }
    forall m, n | 0 <= m < |pgd| && 0 <= n < |pgd| && m != n && pgd[m] % 4 == 1 && pgd[n] % 4 == 1
      ensures TableAddr(pgd[m]) + 1024 <= TableAddr(pgd[n]) || TableAddr(pgd[n]) + 1024 <= TableAddr(pgd[m])
    {
      if m < n {
        RoomyApart(pgd, base, ds, m, n);
      } else {
        RoomyApart(pgd, base, ds, n, m);
      }
    }
  }

  lemma SeparateIsRoomy(pgd: seq<Word>, base: Word, ds: seq<MemDesc>)
    requires Directory(pgd, base, ds, |ds|, 0) && AllWellFormed(ds) && Base(base) && ReservedBefore(ds, |ds|) < 4
    requires TablesSeparate(pgd, base)
    ensures Roomy(ds)
  {
    forall k | 0 <= k < |ds|
      ensures Fresh(ds, k) == 0 || ReservedBefore(ds, k) + Fresh(ds, k) <= 4
    {
      ReservedMonotone(ds, k, |ds|);
      if ReservedBefore(ds, k) + Fresh(ds, k) > 4 {
        var m := MegabyteOf(pgd, base, ds, k, 4);
        assert false;
      }
    }
    forall i, j | 0 <= i < j < |ds|
      ensures RangesApart(ds, i, j)
    {
      ReservedMonotone(ds, i, j);
      if !RangesApart(ds, i, j) {
        var m := MegabyteOf(pgd, base, ds, i, ReservedBefore(ds, j));
        var n := MegabyteOf(pgd, base, ds, j, ReservedBefore(ds, j));
        assert false;
      }
    }
  }

  /** For a list that passes the bound check: the second-level tables are separate
      if and only if the ranges of tables the descriptors take are. */
  lemma SeparateExact(pgd: seq<Word>, base: Word, ds: seq<MemDesc>)
    requires Directory(pgd, base, ds, |ds|, 0) && AllWellFormed(ds) && Base(base) && ReservedBefore(ds, |ds|) < 4
    ensures TablesSeparate(pgd, base) <==> Roomy(ds)
  {
    if Roomy(ds) {
      RoomySeparates(pgd, base, ds);
    } else if TablesSeparate(pgd, base) {
      SeparateIsRoomy(pgd, base, ds);
      assert false;
    }
  }
}
