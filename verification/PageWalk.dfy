/** The hardware's reading of the tables that armv6/mmu.c builds, and what each
    table store does to it.
    Virtual page number `vp` ranges over 2^20 pages of 4 KB; `vp / 256` is the
    megabyte, that is, the index of the first-level entry. */
module PageWalk {
  import opened Words

  datatype MappedMode = SectMapped | PageMapped

  datatype RawDesc = RawDesc(
    vaddrStart: Word, vaddrEnd: Word, paddrStart: Word,
    sectAttr: Word, pageAttr: Word, mode: MappedMode)

  /** struct mem_desc; `vaddrEnd` is inclusive. */
  type MemDesc = d: RawDesc | d.vaddrStart <= d.vaddrEnd
    witness RawDesc(0, 0, 0, 0, 0, SectMapped)

  // ----- the hardware's view: the two-level walk (ARM DDI 0100I, section B4.7)

  datatype Translation =
    | Fault
    | Mapped(frame: int)   // physical page number, or physical address
    | Unmodelled           // supersection, or a table outside _pte_table

  /** Second-level descriptor: fault, 64 KB large page, or 4 KB (extended) small page. */
  function Leaf(entry: Word, vp: int): Translation {
    if entry % 4 == 0 then Fault
    else if entry % 4 == 1 then Mapped(entry / 0x1_0000 * 16 + vp % 16)
    else Mapped(entry / 0x1000)
  }

  function TableAddr(entry: Word): Word {
    entry - entry % 1024
  }

  predicate InPteTable(addr: Word, base: Word) {
    base <= addr && addr + 1024 <= base + 4 * 4096 && (addr - base) % 4 == 0
  }

  function WalkPage(pgd: seq<Word>, pte: seq<Word>, base: Word, vp: int): Translation
    requires |pgd| == 4096 && |pte| == 4096 && 0 <= vp < 0x10_0000
  {
    var entry := pgd[vp / 256];
    if entry % 4 == 0 || entry % 4 == 3 then Fault
    else if entry % 4 == 2 then
      if entry / 0x4_0000 % 2 == 1 then Unmodelled
      else Mapped(entry / 0x10_0000 * 256 + vp % 256)
    else if InPteTable(TableAddr(entry), base) then
      Leaf(pte[(TableAddr(entry) - base) / 4 + vp % 256], vp)
    else Unmodelled
  }

  /** Hardware translation of one virtual address. */
  function Walk(pgd: seq<Word>, pte: seq<Word>, base: Word, va: Word): Translation
    requires |pgd| == 4096 && |pte| == 4096
  {
    match WalkPage(pgd, pte, base, va / 0x1000)
    case Mapped(frame) => Mapped(frame * 0x1000 + va % 0x1000)
    case other => other
  }

  // ----- the descriptor list's view

  /** `count` pages from page `first`, mapped to frames from `frame`. */
  datatype Region = Region(first: int, count: int, frame: int, section: bool)
  {
    predicate Covers(vp: int) {
      first <= vp < first + count
    }
    predicate Touches(mb: int) {
      count > 0 && first / 256 <= mb <= (first + count - 1) / 256
    }
    function FrameOf(vp: int): int {
      (frame + (vp - first)) % 0x10_0000
    }
  }

  function RegionOf(d: MemDesc): Region {
    match d.mode
    case SectMapped =>
      Region(d.vaddrStart / 0x10_0000 * 256, (d.vaddrEnd / 0x10_0000 - d.vaddrStart / 0x10_0000 + 1) * 256,
             d.paddrStart / 0x10_0000 * 256, true)
    case PageMapped =>
      Region(d.vaddrStart / 0x1000, d.vaddrEnd / 0x1000 - d.vaddrStart / 0x1000 + 1,
             d.paddrStart / 0x1000, false)
  }

  function Regions(ds: seq<MemDesc>): (rs: seq<Region>)
    ensures |rs| == |ds|
    ensures forall i :: 0 <= i < |ds| ==> rs[i] == RegionOf(ds[i])
  {
    seq(|ds|, i requires 0 <= i < |ds| => RegionOf(ds[i]))
  }

  function Lookup(rs: seq<Region>, vp: int): Translation {
    if rs == [] then Fault
    else
      var last := rs[|rs| - 1];
      if last.Covers(vp) then Mapped(last.FrameOf(vp)) else Lookup(rs[..|rs| - 1], vp)
  }

  /** What the list asks for: the translation of a virtual address. */
  function Intended(ds: seq<MemDesc>, va: Word): Translation {
    match Lookup(Regions(ds), va / 0x1000)
    case Mapped(frame) => Mapped(frame * 0x1000 + va % 0x1000)
    case other => other
  }

  ghost predicate Apart(a: Region, b: Region) {
    if a.section || b.section
    then forall mb :: a.Touches(mb) ==> !b.Touches(mb)
    else a.first + a.count <= b.first || b.first + b.count <= a.first
  }

  ghost predicate Disjoint(ds: seq<MemDesc>) {
    forall i, j {:trigger Apart(RegionOf(ds[i]), RegionOf(ds[j]))} ::
      0 <= i < j < |ds| ==> Apart(RegionOf(ds[i]), RegionOf(ds[j]))
  }

  // ----- second-level table reservation

  function AlignDownMib(x: Word): Word {
    x - x % 0x10_0000
  }

  /** RT_ALIGN: rounds up; the addition wraps around. */
  function AlignUpMib(x: Word): Word {
    AlignDownMib(Wrap(x + 0x10_0000 - 1))
  }

  /** The megabyte at which the rounded-up end address lies (4096 wraps to 0). */
  function TopMib(end: Word): int {
    if end % 0x10_0000 == 0 then end / 0x10_0000
    else if end / 0x10_0000 == 4095 then 0 else end / 0x10_0000 + 1
  }

  /** Second-level tables that build_pte_mem_desc sets aside for a descriptor. */
  function Reserved(d: MemDesc): (n: nat)
    ensures n < 4096
  {
    if d.mode.SectMapped? then 0 else (TopMib(d.vaddrEnd) - d.vaddrStart / 0x10_0000) % 4096
  }

  /** Tables reserved for the first `n` descriptors. */
  function ReservedBefore(ds: seq<MemDesc>, n: nat): nat
    requires n <= |ds|
  {
    if n == 0 then 0 else ReservedBefore(ds, n - 1) + Reserved(ds[n - 1])
  }

  /** Megabytes a page-mapped descriptor needs a table for, sharing aside. */
  function TablesNeeded(d: MemDesc): int {
    d.vaddrEnd / 0x10_0000 - d.vaddrStart / 0x10_0000 + 1
  }

  lemma AlignUpIs(end: Word)
    ensures AlignUpMib(end) == TopMib(end) * 0x10_0000
  {
    var e, rest := end / 0x10_0000, end % 0x10_0000;
    if rest == 0 {
      DivUnique(end + 0xF_FFFF, 0x10_0000, e, 0xF_FFFF);
    } else {
      DivUnique(end + 0xF_FFFF, 0x10_0000, e + 1, rest - 1);
    }
  }

  /** The 32-bit arithmetic of build_pte_mem_desc computes `Reserved`. */
  lemma SectionCountWraps(start: Word, end: Word)
    ensures Wrap(AlignUpMib(end) - AlignDownMib(start)) / 0x10_0000 ==
            (TopMib(end) - start / 0x10_0000) % 4096
  {
    var gap := TopMib(end) - start / 0x10_0000;
    AlignUpIs(end);
    ShiftWraps20(gap);
    DivUnique(gap % 4096 * 0x10_0000, 0x10_0000, gap % 4096, 0);
  }

  /** The reservation counts the tables exactly, unless the (inclusive) end
      address is a multiple of 1 MB or the range spans all of the first level. */
  lemma ReservationExact(d: MemDesc)
    requires d.mode.PageMapped?
    ensures Reserved(d) == TablesNeeded(d) <==>
            d.vaddrEnd % 0x10_0000 != 0 && !(d.vaddrStart < 0x10_0000 && d.vaddrEnd >= 0xFFF0_0000)
    ensures Reserved(d) <= TablesNeeded(d)
  {
  }

  lemma ShiftWraps20(x: int)
    ensures Wrap(x * 0x10_0000) == x % 4096 * 0x10_0000
  {
    assert x == x / 4096 * 4096 + x % 4096;
    DivUnique(x * 0x10_0000, 0x1_0000_0000, x / 4096, x % 4096 * 0x10_0000);
  }

  lemma ShiftWraps12(x: int)
    ensures Wrap(x * 0x1000) == x % 0x10_0000 * 0x1000
  {
    assert x == x / 0x10_0000 * 0x10_0000 + x % 0x10_0000;
    DivUnique(x * 0x1000, 0x1_0000_0000, x / 0x10_0000, x % 0x10_0000 * 0x1000);
  }

  /** What the table builder demands of one descriptor. */
  predicate WellFormed(d: MemDesc) {
    && (d.mode.SectMapped? ==>
          d.sectAttr < 0x10_0000 && d.sectAttr % 4 == 2 && d.sectAttr / 0x4_0000 % 2 == 0)
    && (d.mode.PageMapped? ==>
          && d.sectAttr < 1024 && d.sectAttr % 4 == 1
          && d.pageAttr < 0x1000 && d.pageAttr % 4 >= 2)
  }

  predicate AllWellFormed(ds: seq<MemDesc>) {
    forall i {:trigger WellFormed(ds[i])} :: 0 <= i < |ds| ==> WellFormed(ds[i])
  }

  function WithTable(d: MemDesc, base: Word, tablesBefore: nat): MemDesc {
    if d.mode.SectMapped? then d
    else d.(sectAttr := OrWord(d.sectAttr, Wrap(TableAddr(base) + 1024 * tablesBefore)))
  }

  lemma {:induction false} LookupFault(rs: seq<Region>, vp: int)
    requires forall i :: 0 <= i < |rs| ==> !rs[i].Covers(vp)
    ensures Lookup(rs, vp) == Fault
  {
    if rs != [] {
      LookupFault(rs[..|rs| - 1], vp);
    }
  }

  lemma {:induction false} LookupFound(rs: seq<Region>, k: nat, vp: int)
    requires k < |rs| && rs[k].Covers(vp)
    requires forall i :: 0 <= i < |rs| && i != k ==> !rs[i].Covers(vp)
    ensures Lookup(rs, vp) == Mapped(rs[k].FrameOf(vp))
  {
    if k < |rs| - 1 {
      LookupFound(rs[..|rs| - 1], k, vp);
    }
  }

  /** The number of pages of a page-mapped descriptor. */
  function PageCount(d: MemDesc): int {
    d.vaddrEnd / 0x1000 - d.vaddrStart / 0x1000 + 1
  }

  /** Where a page's second-level entry lies in _pte_table. */
  function PteIndex(entry: Word, base: Word, vp: int): int {
    (TableAddr(entry) - base) / 4 + vp % 256
  }

  // ----- section entries

  function SectionEntry(d: MemDesc, i: nat): Word {
    OrWord(d.sectAttr, Wrap((d.paddrStart / 0x10_0000 + i) * 0x10_0000))
  }

  function PageEntry(d: MemDesc, i: nat): Word {
    OrWord(d.pageAttr, Wrap((d.paddrStart / 0x1000 + i) * 0x1000))
  }

  lemma FieldOr(shifted: nat, hi: nat, attr: nat, k: nat)
    requires shifted == hi * Pow2(k) && attr < Pow2(k)
    ensures Or(attr, shifted) == Or(shifted, attr) == shifted + attr
  {
    OrFields(hi, attr, k);
  }

  lemma Powers()
    ensures Pow2(10) == 1024 && Pow2(12) == 0x1000 && Pow2(20) == 0x10_0000
  {
    assert Pow2(5) == 32;
    assert Pow2(15) == 0x8000;
  }

  lemma OrWordIs(a: Word, b: Word, c: Word)
    requires Or(a, b) == c
    ensures OrWord(a, b) == c
  {
  }

  lemma Or10(table: nat, attr: nat)
    requires table % 1024 == 0 && attr < 1024
    ensures Or(attr, table) == Or(table, attr) == table + attr
  {
    var hi := table / 1024;
    assert table == hi * Pow2(10) && attr < Pow2(10) by {
      Powers();
    }
    FieldOr(table, hi, attr, 10);
  }

  lemma Or12(hi: nat, attr: Word)
    requires attr < 0x1000 && hi < 0x10_0000
    ensures OrWord(attr, hi * 0x1000) == hi * 0x1000 + attr
  {
    var shifted := hi * 0x1000;
    assert shifted == hi * Pow2(12) && attr < Pow2(12) by {
      Powers();
    }
    FieldOr(shifted, hi, attr, 12);
    OrWordIs(attr, shifted, shifted + attr);
  }

  lemma Or20(hi: nat, attr: Word)
    requires attr < 0x10_0000 && hi < 4096
    ensures OrWord(attr, hi * 0x10_0000) == hi * 0x10_0000 + attr
  {
    var shifted := hi * 0x10_0000;
    assert shifted == hi * Pow2(20) && attr < Pow2(20) by {
      Powers();
    }
    FieldOr(shifted, hi, attr, 20);
    OrWordIs(attr, shifted, shifted + attr);
  }

  lemma LowBits(x: Word)
    ensures x % 1024 % 4 == x % 4
  {
    DivUnique(x, 4, x / 1024 * 256 + x % 1024 / 4, x % 1024 % 4);
  }

  lemma SplitSection(hi: int, attr: int)
    requires 0 <= attr < 0x10_0000 && 0 <= hi
    ensures var e := hi * 0x10_0000 + attr;
            e / 0x10_0000 == hi && e % 4 == attr % 4 && e / 0x4_0000 % 2 == attr / 0x4_0000 % 2
  {
    var e := hi * 0x10_0000 + attr;
    DivUnique(e, 0x10_0000, hi, attr);
    assert e % 4 == attr % 4 by {
      DivUnique(e, 4, hi * 0x4_0000 + attr / 4, attr % 4);
    }
    SplitSuperBit(hi, attr);
  }

  lemma SplitSuperBit(hi: int, attr: int)
    requires 0 <= attr < 0x10_0000 && 0 <= hi
    ensures (hi * 0x10_0000 + attr) / 0x4_0000 % 2 == attr / 0x4_0000 % 2
  {
    DivUnique(hi * 0x10_0000 + attr, 0x4_0000, 4 * hi + attr / 0x4_0000, attr % 0x4_0000);
    DivUnique(4 * hi + attr / 0x4_0000, 2, 2 * hi + attr / 0x4_0000 / 2, attr / 0x4_0000 % 2);
  }

  lemma MegabyteFrame(x: nat, p: int)
    requires 0 <= p < 256
    ensures x % 4096 * 256 + p == (x * 256 + p) % 0x10_0000
  {
    assert x == x / 4096 * 4096 + x % 4096;
    assert x * 256 + p == x / 4096 * 0x10_0000 + (x % 4096 * 256 + p);
  }

  lemma SectionEntryIs(d: MemDesc, i: nat, hi: int)
    requires d.sectAttr < 0x10_0000 && hi == (d.paddrStart / 0x10_0000 + i) % 4096
    ensures SectionEntry(d, i) == hi * 0x10_0000 + d.sectAttr
  {
    var shifted := Wrap((d.paddrStart / 0x10_0000 + i) * 0x10_0000);
    assert shifted == hi * 0x10_0000 by {
      ShiftWraps20(d.paddrStart / 0x10_0000 + i);
    }
    Or20(hi, d.sectAttr);
  }

  lemma PageEntryIs(d: MemDesc, i: nat, hi: int)
    requires d.pageAttr < 0x1000 && hi == (d.paddrStart / 0x1000 + i) % 0x10_0000
    ensures PageEntry(d, i) == hi * 0x1000 + d.pageAttr
  {
    var shifted := Wrap((d.paddrStart / 0x1000 + i) * 0x1000);
    assert shifted == hi * 0x1000 by {
      ShiftWraps12(d.paddrStart / 0x1000 + i);
    }
    Or12(hi, d.pageAttr);
  }

  lemma SectionEntryFrame(d: MemDesc, i: nat, p: int)
    requires d.sectAttr < 0x10_0000 && d.sectAttr % 4 == 2 && d.sectAttr / 0x4_0000 % 2 == 0
    requires 0 <= p < 256
    ensures var e := SectionEntry(d, i);
            && e % 4 == 2 && e / 0x4_0000 % 2 == 0
            && e / 0x10_0000 * 256 + p == (d.paddrStart / 0x10_0000 * 256 + 256 * i + p) % 0x10_0000
  {
    var x := d.paddrStart / 0x10_0000 + i;
    SectionEntryIs(d, i, x % 4096);
    SplitSection(x % 4096, d.sectAttr);
    MegabyteFrame(x, p);
  }

  lemma SectionCovers(d: MemDesc, vp: int)
    requires d.mode.SectMapped?
    ensures RegionOf(d).Covers(vp) <==> d.vaddrStart / 0x10_0000 <= vp / 256 <= d.vaddrEnd / 0x10_0000
    ensures var i := vp / 256 - d.vaddrStart / 0x10_0000;
            RegionOf(d).FrameOf(vp) == (d.paddrStart / 0x10_0000 * 256 + 256 * i + vp % 256) % 0x10_0000
  {
  }

  lemma PageEntryFrame(d: MemDesc, i: nat)
    requires d.pageAttr < 0x1000 && d.pageAttr % 4 >= 2
    ensures var e := PageEntry(d, i);
            e % 4 >= 2 && e / 0x1000 == (d.paddrStart / 0x1000 + i) % 0x10_0000
  {
    var x := d.paddrStart / 0x1000 + i;
    PageEntryIs(d, i, x % 0x10_0000);
    SplitPage(x % 0x10_0000, d.pageAttr);
  }

  lemma SplitPage(hi: int, attr: int)
    requires 0 <= attr < 0x1000 && 0 <= hi
    ensures var e := hi * 0x1000 + attr; e / 0x1000 == hi && e % 4 == attr % 4
  {
    DivUnique(hi * 0x1000 + attr, 4, hi * 0x400 + attr / 4, attr % 4);
  }

  lemma TableEntry(table: Word, attr: Word)
    requires table % 1024 == 0 && attr < 1024 && attr % 4 == 1
    ensures var e := OrWord(table, attr); e % 4 == 1 && TableAddr(e) == table
  {
    TableEntryIs(table, attr);
    EntryParts(table, attr);
  }

  lemma EntryParts(table: Word, attr: Word)
    requires table % 1024 == 0 && attr < 1024 && attr % 4 == 1
    ensures table + attr < 0x1_0000_0000
    ensures (table + attr) % 4 == 1 && TableAddr(table + attr) == table
  {
    DivUnique(table + attr, 1024, table / 1024, attr);
    DivUnique(table + attr, 4, table / 1024 * 256 + attr / 4, attr % 4);
  }

  lemma EntryFits(table: Word, attr: Word)
    requires table % 1024 == 0 && attr < 1024
    ensures table + attr < 0x1_0000_0000
  {
  }

  lemma TableEntryIs(table: Word, attr: Word)
    requires table % 1024 == 0 && attr < 1024
    ensures OrWord(table, attr) == OrWord(attr, table) == table + attr
  {
    EntryFits(table, attr);
    Or10(table, attr);
    OrWordIs(table, attr, table + attr);
    OrWordIs(attr, table, table + attr);
  }
}
