/**
 unmap_page_fix_size: a page inside a 1 GiB or 2 MiB mapping is removed by first replacing the large page
 with 4 KiB pages. Everything else the large page mapped keeps its frame.
 */
module LargePages {
  import opened Wrappers
  import opened PageTables
  import opened RecursiveWindow
  import opened KernelPaging
  import opened EntryWords

  // `e & 0x3E`: the flags a large page passes on to the small ones.
  function KeptFlags(e: Entry): Flags { Flags(e.writable, e.rest & 0xF) }

  // ALIGN_DOWN(v, 0x40000000) + offset and ALIGN_DOWN(v, 0x200000) + offset
  function GigPart(v: bv64, offset: bv64): bv64 { (v & 0xFFFF_FFFF_C000_0000) + offset }
  function MegPart(v: bv64, offset: bv64): bv64 { (v & 0xFFFF_FFFF_FFE0_0000) + offset }

  function I2(offset: bv64): Index { ((offset >> 21) & 511) as bv9 as int }
  function I1(offset: bv64): Index { ((offset >> 12) & 511) as bv9 as int }

  lemma GigParts(v: bv64, offset: bv64)
    requires offset < 0x4000_0000
    ensures PageOf(GigPart(v, offset)) == Page(PageOf(v).i4, PageOf(v).i3, I2(offset), I1(offset))
  {}

  lemma MegParts(v: bv64, offset: bv64)
    requires offset < 0x20_0000
    ensures PageOf(MegPart(v, offset)) == Page(PageOf(v).i4, PageOf(v).i3, PageOf(v).i2, I1(offset))
  {}

  // The pair of indices after (j2, j1).
  ghost function After(j2: int, j1: int): (int, int) {
    if j1 < 511 then (j2, j1 + 1) else (j2 + 1, 0)
  }

  lemma FirstOffset()
    ensures I2(0) == 0 && I1(0) == 0
  {}

  // Adding 0x1000 counts the pair of indices up; the pair after the last one ends the large page.
  lemma NextOffset(offset: bv64)
    requires offset < 0x4000_0000 && offset & 0xFFF == 0
    ensures offset < offset + 0x1000 <= 0x4000_0000 && (offset + 0x1000) & 0xFFF == 0
    ensures var j := After(I2(offset), I1(offset));
            if offset + 0x1000 < 0x4000_0000 then j == (I2(offset + 0x1000) as int, I1(offset + 0x1000) as int)
              else j == (512, 0)
  {
    hide I1, I2;
    OffsetSteps(offset);
    CountUp(offset);
  }

  lemma OffsetSteps(offset: bv64)
    requires offset < 0x4000_0000 && offset & 0xFFF == 0
    ensures offset < offset + 0x1000 <= 0x4000_0000 && (offset + 0x1000) & 0xFFF == 0
  {}

  lemma CountUp(offset: bv64)
    requires offset < 0x4000_0000 && offset & 0xFFF == 0
    ensures I1(offset) < 511 ==> I1(offset + 0x1000) == I1(offset) + 1 && I2(offset + 0x1000) == I2(offset)
    ensures I1(offset) == 511 && I2(offset) < 511 ==> I1(offset + 0x1000) == 0 && I2(offset + 0x1000) == I2(offset) + 1
    ensures I1(offset) == 511 && I2(offset) == 511 <==> offset + 0x1000 == 0x4000_0000
  {}

  // Page `q` is one of the 4 KiB pages of the large page at `p`.
  predicate InGig(p: Page, q: Page) { q.i4 == p.i4 && q.i3 == p.i3 }
  predicate InMeg(p: Page, q: Page) { InGig(p, q) && q.i2 == p.i2 }

  // The small page that takes over page `q` of a large page with entry `e`.
  function GigPiece(e: Entry, q: Page): Mapping
    requires e.frame + 0x4_0000 <= 0x10_0000_0000
  {
    Leaf(Size4K, Pointer(e.frame + 512 * q.i2 + q.i1, KeptFlags(e)))
  }

  function MegPiece(e: Entry, q: Page): Mapping
    requires e.frame + 0x200 <= 0x10_0000_0000
  {
    Leaf(Size4K, Pointer(e.frame + q.i1, KeptFlags(e)))
  }

  // The first pages of the large page, in address order, are mapped piece by piece; the rest are not mapped yet.
  ghost predicate GigSplit(m: Memory, m': Memory, root: Frame, p: Page, e: Entry, j2: int, j1: int)
    requires e.frame + 0x4_0000 <= 0x10_0000_0000
  {
    forall q: Page | q.i4 != SELF ::
      Resolve(m', root, q) ==
      if !InGig(p, q) then Resolve(m, root, q)
      else if q.i2 < j2 || (q.i2 == j2 && q.i1 < j1) then GigPiece(e, q)
      else Unmapped
  }

  ghost predicate MegSplit(m: Memory, m': Memory, root: Frame, p: Page, e: Entry, j1: int)
    requires e.frame + 0x200 <= 0x10_0000_0000
  {
    forall q: Page | q.i4 != SELF ::
      Resolve(m', root, q) ==
      if !InMeg(p, q) then Resolve(m, root, q)
      else if q.i1 < j1 then MegPiece(e, q)
      else Unmapped
  }

  lemma UnmappedIsSmall(m: Memory, root: Frame, q: Page)
    requires Resolve(m, root, q) == Unmapped && Next(E4(m, root, q)).Some?
    ensures SmallPath(m, root, q)
  {}

  /** Clearing a large entry keeps the tree and unmaps exactly its pages. */
  lemma ClearGig(m: Memory, m': Memory, root: Frame, free: seq<Frame>, p: Page)
    requires Tree(m, root) && Fresh(m, root, free) && p.i4 != SELF
    requires Next(E4(m, root, p)).Some? && E3(m, root, p).present && E3(m, root, p).large
    requires SameExcept(m, m', Slot(E4(m, root, p).frame, p.i3)) && E3(m', root, p) == ZERO
        && E4(m', root, p) == E4(m, root, p)
    requires E3(m, root, p).frame + 0x4_0000 <= 0x10_0000_0000
    ensures Tree(m', root) && Fresh(m', root, free)
    ensures GigSplit(m, m', root, p, E3(m, root, p), 0, 0)
  {
    PathFrames(m, root, p);
    assert Table(m, root, Root) == Some(root);
    forall q | Proper(q) ensures Table(m', root, q) == Table(m, root, q) {
      if !Below(Pdpt(p.i4), p.i3, q) {
        WriteKeepsTables(m, m', root, Pdpt(p.i4), p.i3, q);
      }
    }
    forall q: Page | q.i4 != SELF && !InGig(p, q) ensures Resolve(m', root, q) == Resolve(m, root, q) {
      WriteKeepsPages(m, m', root, Pdpt(p.i4), p.i3, q);
    }
  }

  lemma ClearMeg(m: Memory, m': Memory, root: Frame, free: seq<Frame>, p: Page)
    requires Tree(m, root) && Fresh(m, root, free) && p.i4 != SELF
    requires Next(E4(m, root, p)).Some? && Next(E3(m, root, p)).Some? && E2(m, root, p).present && E2(m, root, p).large
    requires SameExcept(m, m', Slot(E3(m, root, p).frame, p.i2)) && E2(m', root, p) == ZERO
    requires E3(m', root, p) == E3(m, root, p) && E4(m', root, p) == E4(m, root, p)
    requires E2(m, root, p).frame + 0x200 <= 0x10_0000_0000
    ensures Tree(m', root) && Fresh(m', root, free)
    ensures MegSplit(m, m', root, p, E2(m, root, p), 0)
  {
    PathFrames(m, root, p);
    assert Table(m, root, Root) == Some(root);
    forall q | Proper(q) ensures Table(m', root, q) == Table(m, root, q) {
      if !Below(Pd(p.i4, p.i3), p.i2, q) {
        WriteKeepsTables(m, m', root, Pd(p.i4, p.i3), p.i2, q);
      }
    }
    forall q: Page | q.i4 != SELF && !InMeg(p, q) ensures Resolve(m', root, q) == Resolve(m, root, q) {
      WriteKeepsPages(m, m', root, Pd(p.i4, p.i3), p.i2, q);
    }
  }

  lemma GigStep(m: Memory, m1: Memory, m2: Memory, root: Frame, p: Page, e: Entry, j2: Index, j1: Index)
    requires e.frame + 0x4_0000 <= 0x10_0000_0000
    requires GigSplit(m, m1, root, p, e, j2, j1)
    requires var q := Page(p.i4, p.i3, j2, j1); MappedOnly(m1, m2, root, q, GigPiece(e, q))
    ensures GigSplit(m, m2, root, p, e, After(j2, j1).0, After(j2, j1).1)
  {}

  // The 2 MiB stretches from page `(j2, j1)` on have no page table yet, and the first page no page directory either.
  ghost predicate NotYet(m: Memory, root: Frame, p: Page, j2: int, j1: int) {
    && (j2 == 0 && j1 == 0 ==> !E3(m, root, p).present)
    && (forall j: Index | j > j2 || (j == j2 && j1 == 0) :: Table(m, root, Pt(p.i4, p.i3, j)).None?)
  }

  // Only the first page of a 2 MiB stretch finds no page table, only the very first no page directory.
  lemma GigMissing(m: Memory, m1: Memory, root: Frame, p: Page, e: Entry, j2: Index, j1: Index)
    requires e.frame + 0x4_0000 <= 0x10_0000_0000 && p.i4 != SELF
    requires GigSplit(m, m1, root, p, e, j2, j1) && Next(E4(m1, root, p)).Some? && NotYet(m1, root, p, j2, j1)
    ensures Missing(m1, root, Page(p.i4, p.i3, j2, j1)) == if j1 > 0 then 0 else if j2 > 0 then 1 else 2
  {
    var q := Page(p.i4, p.i3, j2, j1);
    assert Resolve(m1, root, q) == Unmapped;
    if j1 > 0 {
      assert Resolve(m1, root, q.(i1 := j1 - 1)) == GigPiece(e, q.(i1 := j1 - 1));
    } else {
      assert Table(m1, root, Pt(p.i4, p.i3, j2)).None?;
      if j2 > 0 {
        assert Resolve(m1, root, Page(p.i4, p.i3, j2 - 1, 0)) == GigPiece(e, Page(p.i4, p.i3, j2 - 1, 0));
      }
    }
  }

  lemma NotYetNext(m: Memory, m': Memory, root: Frame, p: Page, j2: Index, j1: Index)
    requires NotYet(m, root, p, j2, j1) && OtherTables(m, m', root, Page(p.i4, p.i3, j2, j1)) && p.i4 != SELF
    ensures NotYet(m', root, p, After(j2, j1).0, After(j2, j1).1)
  {
    forall j: Index | j > j2 ensures Table(m', root, Pt(p.i4, p.i3, j)).None? {
      assert !Leads(Pt(p.i4, p.i3, j), Page(p.i4, p.i3, j2, j1));
    }
  }

  // One round of the 1 GiB loop.
  method MapGigPart(s: AddressSpace, v: bv64, offset: bv64, e: Entry, ghost m: Memory) returns (r: Outcome)
    requires offset < 0x4000_0000
    requires Tree(s.mem, s.root) && Fresh(s.mem, s.root, s.free) && PageOf(v).i4 != SELF
    requires Next(E4(s.mem, s.root, PageOf(v))).Some?
    requires e.frame + 0x4_0000 <= 0x10_0000_0000
    requires GigSplit(m, s.mem, s.root, PageOf(v), e, I2(offset), I1(offset))
    requires NotYet(s.mem, s.root, PageOf(v), I2(offset), I1(offset))
    modifies s`mem, s`free
    ensures r.Done? ==> Tree(s.mem, s.root) && Fresh(s.mem, s.root, s.free)
    ensures r.Done? ==> Next(E4(s.mem, s.root, PageOf(v))).Some?
    ensures r.Done? ==> var j := After(I2(offset), I1(offset));
                        && GigSplit(m, s.mem, s.root, PageOf(v), e, j.0, j.1)
                        && NotYet(s.mem, s.root, PageOf(v), j.0, j.1)
    ensures var cost := if I1(offset) > 0 then 0 else if I2(offset) > 0 then 1 else 2;
            (r.NoFrames? ==> |old(s.free)| < cost) && (r.Done? ==> |s.free| == |old(s.free)| - cost)
    ensures var q := Page(PageOf(v).i4, PageOf(v).i3, I2(offset), I1(offset));
            && r == OutcomeOf(old(s.mem), s.root, q, KeptFlags(e), s.writeProtect, |old(s.free)|)
            && (r.Done? ==> Refilled(old(s.mem), s.mem, s.root, q, e))
  {
    hide PageOf, I1, I2, GigPart, After, OutcomeOf, NotYet, OtherTables;
    GigParts(v, offset);
    ghost var p, q := PageOf(v), PageOf(GigPart(v, offset));
    GigMissing(m, s.mem, s.root, p, e, I2(offset), I1(offset));
    UnmappedIsSmall(s.mem, s.root, q);
    ghost var m1, frames := s.mem, s.free;
    OutcomeIs(m1, s.root, q, KeptFlags(e), s.writeProtect, |frames|);
    r := s.MapPage(GigPart(v, offset), e.frame + 512 * I2(offset) + I1(offset), KeptFlags(e));
    if r.Done? {
      GigStep(m, m1, s.mem, s.root, p, e, I2(offset), I1(offset));
      NotYetNext(m1, s.mem, s.root, p, I2(offset), I1(offset));
      RefilledBy(m1, s.mem, s.root, q, frames, e);
    }
  }

  lemma OutcomeIs(m: Memory, root: Frame, q: Page, flags: Flags, writeProtect: bool, frames: nat)
    ensures var r := OutcomeOf(m, root, q, flags, writeProtect, frames);
            (r.NoFrames? ==> frames < Missing(m, root, q)) && (r.Done? ==> Missing(m, root, q) <= frames)
  {}

  // What refilling page `q` makes of the entries above it, for a page that is read-only.
  predicate Refilled(m: Memory, m': Memory, root: Frame, q: Page, e: Entry) {
    && E3(m', root, q).present && E2(m', root, q).present
    && (E4(m, root, q).present && !e.writable ==> E4(m', root, q).writable == E4(m, root, q).writable)
    && (!e.writable ==> E3(m', root, q).writable ==
                        (E4(m, root, q).present && E3(m, root, q).present && E3(m, root, q).writable))
  }

  lemma RefilledBy(m: Memory, m': Memory, root: Frame, q: Page, free: seq<Frame>, e: Entry)
    requires Missing(m, root, q) <= |free| && UpperEntries(m, m', root, q, free, KeptFlags(e))
    ensures Refilled(m, m', root, q, e)
  {}

  // The 1 GiB branch up to its last map_page.
  method SplitGig(s: AddressSpace, v: bv64) returns (r: Outcome)
    requires Tree(s.mem, s.root) && Fresh(s.mem, s.root, s.free) && PageOf(v).i4 != SELF
    requires Next(E4(s.mem, s.root, PageOf(v))).Some?
    requires var e := E3(s.mem, s.root, PageOf(v)); e.present && e.large && e.frame + 0x4_0000 <= 0x10_0000_0000
    modifies s`mem, s`free
    ensures r.Done? ==> Tree(s.mem, s.root) && Fresh(s.mem, s.root, s.free)
    ensures r.Done? ==> GigSplit(old(s.mem), s.mem, s.root, PageOf(v), E3(old(s.mem), s.root, PageOf(v)), 512, 0)
    ensures r.Done? ==> Next(E4(s.mem, s.root, PageOf(v))).Some?
    ensures r.NoFrames? ==> |old(s.free)| < 513
    ensures r.Done? ==> |s.free| == |old(s.free)| - 513
    ensures r.Fault? <==> s.writeProtect && !E3(old(s.mem), s.root, PageOf(v)).writable && |old(s.free)| >= 2
    ensures r.Done? ==> !(s.writeProtect && !E3(old(s.mem), s.root, PageOf(v)).writable)
  {
    hide PageOf, I1, I2;
    ghost var p := PageOf(v);
    ghost var m0 := s.mem;
    PathFrames(m0, s.root, p);
    var e := s.LoadPdpte(v);
    var pml4e := s.LoadPml4e(v);
    s.StorePml4e(v, RaiseWrite(pml4e));
    s.StorePdpte(v, ZERO);
    s.StorePml4e(v, pml4e);
    ClearGig(m0, s.mem, s.root, s.free, p);
    assert NotYet(s.mem, s.root, p, 0, 0);
    r := SplitGigFrom(s, v, e, m0);
  }

  // Where the loop stands that refills a read-only page: it does not get past the second round.
  ghost predicate GigHeld(m: Memory, root: Frame, p: Page, j2: int, j1: int) {
    var first := Page(p.i4, p.i3, 0, 0);
    j2 == 0 && j1 == 1 && E3(m, root, first).present && !E3(m, root, first).writable && E2(m, root, first).present
  }

  // The page directory and page tables there are when page `(j2, j1)` is next.
  function TablesMade(j2: int, j1: int): int { if j2 == 0 && j1 == 0 then 0 else 1 + j2 + if j1 > 0 then 1 else 0 }

  lemma TablesMadeNext(j2: Index, j1: Index)
    ensures var j := After(j2, j1);
            TablesMade(j.0, j.1) == TablesMade(j2, j1) + if j1 > 0 then 0 else if j2 > 0 then 1 else 2
    ensures TablesMade(0, 0) == 0 && TablesMade(512, 0) == 513
    ensures TablesMade(After(j2, j1).0, After(j2, j1).1) <= 513
    ensures j2 == 0 && j1 == 0 ==> After(j2, j1) == (0, 1)
    ensures After(j2, j1).0 > 0 || After(j2, j1).1 > 0
  {}

  method SplitGigFrom(s: AddressSpace, v: bv64, e: Entry, ghost m: Memory) returns (r: Outcome)
    requires Tree(s.mem, s.root) && Fresh(s.mem, s.root, s.free) && PageOf(v).i4 != SELF
    requires Next(E4(s.mem, s.root, PageOf(v))).Some? && !E3(s.mem, s.root, PageOf(v)).present
    requires e.frame + 0x4_0000 <= 0x10_0000_0000
    requires GigSplit(m, s.mem, s.root, PageOf(v), e, 0, 0) && NotYet(s.mem, s.root, PageOf(v), 0, 0)
    modifies s`mem, s`free
    ensures r.Done? ==> Tree(s.mem, s.root) && Fresh(s.mem, s.root, s.free)
    ensures r.Done? ==> Next(E4(s.mem, s.root, PageOf(v))).Some?
    ensures r.Done? ==> GigSplit(m, s.mem, s.root, PageOf(v), e, 512, 0)
    ensures r.NoFrames? ==> |old(s.free)| < 513
    ensures r.Done? ==> |s.free| == |old(s.free)| - 513
    ensures r.Fault? <==> s.writeProtect && !e.writable && |old(s.free)| >= 2
    ensures r.Done? ==> !(s.writeProtect && !e.writable)
  {
    hide PageOf, GigSplit, Tree, Fresh, I1, I2, E4, E3, OutcomeOf, Refilled, GigHeld, NotYet,
        After, TablesMade;
    FirstOffset();
    TablesMadeNext(0, 0);
    ghost var p := PageOf(v);
    ghost var refused := s.writeProtect && !e.writable;
    var offset: bv64 := 0;
    ghost var j2, j1 := 0, 0;
    while offset < 0x4000_0000
      invariant offset <= 0x4000_0000 && offset & 0xFFF == 0
      invariant if offset < 0x4000_0000 then j2 == I2(offset) && j1 == I1(offset) else j2 == 512 && j1 == 0
      invariant Tree(s.mem, s.root) && Fresh(s.mem, s.root, s.free) && Next(E4(s.mem, s.root, p)).Some?
      invariant GigSplit(m, s.mem, s.root, p, e, j2, j1)
      invariant NotYet(s.mem, s.root, p, j2, j1)
      invariant |s.free| + TablesMade(j2, j1) == |old(s.free)|
      invariant j2 == 0 && j1 == 0 ==> !E3(s.mem, s.root, p).present && s.free == old(s.free)
      invariant refused ==> (j2 == 0 && j1 == 0) || (GigHeld(s.mem, s.root, p, j2, j1) && |old(s.free)| >= 2)
      decreases 0x4000_0000 - offset
    {
      NextOffset(offset);
      TablesMadeNext(j2, j1);
      ghost var m1, q := s.mem, Page(p.i4, p.i3, j2, j1);
      GigRound(m1, s.root, p, e, s.writeProtect, j2, j1, |s.free|);
      r := MapGigPart(s, v, offset, e, m);
      if !r.Done? { return; }
      if j2 == 0 && j1 == 0 {
        GigFirst(m1, s.mem, s.root, p, e);
      }
      j2, j1 := After(j2, j1).0, After(j2, j1).1;
      offset := offset + 0x1000;
    }
    GigOver(s.mem, s.root, p, j2, j1);
    r := Done;
  }

  // How the next round ends: refused only under CR0.WP for a read-only page, and not before the second one.
  lemma GigRound(m: Memory, root: Frame, p: Page, e: Entry, writeProtect: bool, j2: Index, j1: Index, frames: nat)
    requires Next(E4(m, root, p)).Some?
    ensures var r := OutcomeOf(m, root, Page(p.i4, p.i3, j2, j1), KeptFlags(e), writeProtect, frames);
            && (r.Fault? ==> writeProtect && !e.writable)
            && (!E3(m, root, p).present ==> r == if frames < 2 then NoFrames else Done)
            && (writeProtect && !e.writable && GigHeld(m, root, p, j2, j1) ==> r.Fault?)
  {}

  lemma GigFirst(m: Memory, m': Memory, root: Frame, p: Page, e: Entry)
    requires !E3(m, root, p).present && Refilled(m, m', root, Page(p.i4, p.i3, 0, 0), e)
    ensures !e.writable ==> GigHeld(m', root, p, 0, 1)
  {}

  lemma GigOver(m: Memory, root: Frame, p: Page, j2: int, j1: int)
    requires j2 == 512
    ensures !GigHeld(m, root, p, j2, j1)
  {}

  lemma MegStep(m: Memory, m1: Memory, m2: Memory, root: Frame, p: Page, e: Entry, j1: Index)
    requires e.frame + 0x200 <= 0x10_0000_0000
    requires MegSplit(m, m1, root, p, e, j1)
    requires var q := Page(p.i4, p.i3, p.i2, j1); MappedOnly(m1, m2, root, q, MegPiece(e, q))
    ensures MegSplit(m, m2, root, p, e, j1 + 1)
  {}

  lemma MegMissing(m: Memory, m1: Memory, root: Frame, p: Page, e: Entry, j1: Index)
    requires e.frame + 0x200 <= 0x10_0000_0000 && p.i4 != SELF
    requires MegSplit(m, m1, root, p, e, j1) && Next(E4(m1, root, p)).Some? && Next(E3(m1, root, p)).Some?
    requires j1 == 0 ==> !E2(m1, root, p).present
    ensures Missing(m1, root, Page(p.i4, p.i3, p.i2, j1)) == if j1 > 0 then 0 else 1
  {
    if j1 > 0 {
      assert Resolve(m1, root, Page(p.i4, p.i3, p.i2, j1 - 1)) == MegPiece(e, Page(p.i4, p.i3, p.i2, j1 - 1));
    }
  }

  // One round of the 2 MiB loop.
  method MapMegPart(s: AddressSpace, v: bv64, offset: bv64, e: Entry, ghost m: Memory) returns (r: Outcome)
    requires offset < 0x20_0000
    requires Tree(s.mem, s.root) && Fresh(s.mem, s.root, s.free) && PageOf(v).i4 != SELF
    requires Next(E4(s.mem, s.root, PageOf(v))).Some? && Next(E3(s.mem, s.root, PageOf(v))).Some?
    requires e.frame + 0x200 <= 0x10_0000_0000
    requires MegSplit(m, s.mem, s.root, PageOf(v), e, I1(offset))
    requires I1(offset) == 0 ==> !E2(s.mem, s.root, PageOf(v)).present
    modifies s`mem, s`free
    ensures r.Done? ==> Tree(s.mem, s.root) && Fresh(s.mem, s.root, s.free)
    ensures r.Done? ==> Next(E4(s.mem, s.root, PageOf(v))).Some? && Next(E3(s.mem, s.root, PageOf(v))).Some?
    ensures r.Done? ==> MegSplit(m, s.mem, s.root, PageOf(v), e, I1(offset) + 1)
    ensures var cost := if I1(offset) > 0 then 0 else 1;
            (r.NoFrames? ==> |old(s.free)| < cost) && (r.Done? ==> |s.free| == |old(s.free)| - cost)
    ensures var q := Page(PageOf(v).i4, PageOf(v).i3, PageOf(v).i2, I1(offset));
            && r == OutcomeOf(old(s.mem), s.root, q, KeptFlags(e), s.writeProtect, |old(s.free)|)
            && (r.Done? ==> Refilled(old(s.mem), s.mem, s.root, q, e))
  {
    hide PageOf, I1, MegPart, OutcomeOf;
    MegParts(v, offset);
    ghost var p, q := PageOf(v), PageOf(MegPart(v, offset));
    MegMissing(m, s.mem, s.root, p, e, I1(offset));
    UnmappedIsSmall(s.mem, s.root, q);
    ghost var m1, frames := s.mem, s.free;
    OutcomeIs(m1, s.root, q, KeptFlags(e), s.writeProtect, |frames|);
    r := s.MapPage(MegPart(v, offset), e.frame + I1(offset), KeptFlags(e));
    if r.Done? {
      MegStep(m, m1, s.mem, s.root, p, e, I1(offset));
      RefilledBy(m1, s.mem, s.root, q, frames, e);
    }
  }

  // The rounds of the 2 MiB loop that are refused for a read-only page: the first if the PML4 entry is read-only,
  // and the second if only the PDPT entry is.
  predicate MegRefused(e4: Entry, e3: Entry, e: Entry, writeProtect: bool) {
    writeProtect && !e.writable && !(e4.writable && e3.writable)
  }

  // The 2 MiB branch up to its last map_page.
  method SplitMeg(s: AddressSpace, v: bv64) returns (r: Outcome)
    requires Tree(s.mem, s.root) && Fresh(s.mem, s.root, s.free) && PageOf(v).i4 != SELF
    requires Next(E4(s.mem, s.root, PageOf(v))).Some? && Next(E3(s.mem, s.root, PageOf(v))).Some?
    requires var e := E2(s.mem, s.root, PageOf(v)); e.present && e.large && e.frame + 0x200 <= 0x10_0000_0000
    modifies s`mem, s`free
    ensures r.Done? ==> Tree(s.mem, s.root) && Fresh(s.mem, s.root, s.free)
    ensures r.Done? ==> MegSplit(old(s.mem), s.mem, s.root, PageOf(v), E2(old(s.mem), s.root, PageOf(v)), 512)
    ensures r.NoFrames? ==> old(s.free) == []
    ensures r.Done? ==> |s.free| == |old(s.free)| - 1
    ensures var e4, e3 := E4(old(s.mem), s.root, PageOf(v)), E3(old(s.mem), s.root, PageOf(v));
            var refused := MegRefused(e4, e3, E2(old(s.mem), s.root, PageOf(v)), s.writeProtect);
            (r.Fault? <==> refused && (e4.writable ==> old(s.free) != [])) && (r.Done? ==> !refused)
  {
    hide PageOf;
    ghost var p := PageOf(v);
    ghost var m0 := s.mem;
    PathFrames(m0, s.root, p);
    var e := s.LoadPde(v);
    var pml4e, pdpte := s.RaisePath(v);
    s.StorePde(v, ZERO);
    s.RestorePath(v, pml4e, pdpte);
    ClearMeg(m0, s.mem, s.root, s.free, p);
    r := SplitMegFrom(s, v, e, m0);
  }

  // What the rounds before leave of the entries above a read-only page.
  ghost predicate MegHeld(m: Memory, root: Frame, p: Page, e4: Entry, e3: Entry, j1: int) {
    && E3(m, root, p).present
    && E4(m, root, p).writable == e4.writable && E3(m, root, p).writable == e3.writable
    && (E2(m, root, p).present <==> j1 > 0)
  }

  method SplitMegFrom(s: AddressSpace, v: bv64, e: Entry, ghost m: Memory) returns (r: Outcome)
    requires Tree(s.mem, s.root) && Fresh(s.mem, s.root, s.free) && PageOf(v).i4 != SELF
    requires Next(E4(s.mem, s.root, PageOf(v))).Some? && Next(E3(s.mem, s.root, PageOf(v))).Some?
    requires !E2(s.mem, s.root, PageOf(v)).present && e.frame + 0x200 <= 0x10_0000_0000
    requires MegSplit(m, s.mem, s.root, PageOf(v), e, 0)
    modifies s`mem, s`free
    ensures r.Done? ==> Tree(s.mem, s.root) && Fresh(s.mem, s.root, s.free)
    ensures r.Done? ==> MegSplit(m, s.mem, s.root, PageOf(v), e, 512)
    ensures r.NoFrames? ==> old(s.free) == []
    ensures r.Done? ==> |s.free| == |old(s.free)| - 1
    ensures var e4, e3 := E4(old(s.mem), s.root, PageOf(v)), E3(old(s.mem), s.root, PageOf(v));
            var refused := MegRefused(e4, e3, e, s.writeProtect);
            (r.Fault? <==> refused && (e4.writable ==> old(s.free) != [])) && (r.Done? ==> !refused)
  {
    hide PageOf, MegSplit, Tree, Fresh, I1, I2, E4, E3, E2, OutcomeOf, Refilled;
    FirstOffset();
    ghost var p := PageOf(v);
    ghost var e4, e3 := E4(s.mem, s.root, p), E3(s.mem, s.root, p);
    var offset: bv64 := 0;
    ghost var j1 := 0;
    while offset < 0x20_0000
      invariant offset <= 0x20_0000 && offset & 0xFFF == 0
      invariant j1 == if offset < 0x20_0000 then I1(offset) else 512
      invariant Tree(s.mem, s.root) && Fresh(s.mem, s.root, s.free)
      invariant Next(E4(s.mem, s.root, p)).Some? && Next(E3(s.mem, s.root, p)).Some?
      invariant MegSplit(m, s.mem, s.root, p, e, j1)
      invariant |s.free| + (if j1 == 0 then 0 else 1) == |old(s.free)|
      invariant j1 == 0 ==> s.free == old(s.free) && !E2(s.mem, s.root, p).present
      invariant !e.writable ==> MegHeld(s.mem, s.root, p, e4, e3, j1)
      invariant MegRefused(e4, e3, e, s.writeProtect) ==> j1 <= 1 && (j1 == 1 ==> e4.writable && old(s.free) != [])
      decreases 0x20_0000 - offset
    {
      NextMegOffset(offset);
      ghost var m1, frames := s.mem, |s.free|;
      MegRound(m1, s.root, p, e4, e3, e, s.writeProtect, j1, frames);
      r := MapMegPart(s, v, offset, e, m);
      if !r.Done? { return; }
      if !e.writable {
        MegNext(m1, s.mem, s.root, p, e4, e3, e, j1);
      }
      j1 := j1 + 1;
      offset := offset + 0x1000;
    }
    r := Done;
  }

  // How the next round ends.
  lemma MegRound(m: Memory, root: Frame, p: Page, e4: Entry, e3: Entry, e: Entry, writeProtect: bool, j1: Index,
    frames: nat)
    requires Next(E4(m, root, p)).Some? && Next(E3(m, root, p)).Some?
    requires !e.writable ==> MegHeld(m, root, p, e4, e3, j1)
    ensures var r := OutcomeOf(m, root, Page(p.i4, p.i3, p.i2, j1), KeptFlags(e), writeProtect, frames);
            && (r.Fault? <==> writeProtect && !e.writable && !(e4.writable && (j1 > 0 ==> e3.writable)))
            && (r.Done? && j1 == 0 && !e.writable ==> frames > 0)
  {}

  lemma MegNext(m: Memory, m': Memory, root: Frame, p: Page, e4: Entry, e3: Entry, e: Entry, j1: Index)
    requires MegHeld(m, root, p, e4, e3, j1) && !e.writable && E4(m, root, p).present
    requires Refilled(m, m', root, Page(p.i4, p.i3, p.i2, j1), e)
    ensures MegHeld(m', root, p, e4, e3, j1 + 1)
  {}

  lemma NextMegOffset(offset: bv64)
    requires offset < 0x20_0000 && offset & 0xFFF == 0
    ensures offset < offset + 0x1000 <= 0x20_0000 && (offset + 0x1000) & 0xFFF == 0
    ensures offset + 0x1000 < 0x20_0000 ==> I1(offset + 0x1000) == I1(offset) + 1
    ensures offset + 0x1000 == 0x20_0000 ==> I1(offset) == 511
  {}

  // The mapping of page `q` once the large page around `p`, if any, is split and `p` removed.
  ghost function AfterRemoval(m: Memory, root: Frame, p: Page, q: Page): Mapping
    requires FramesFit(m, root, p)
  {
    if q == p then Unmapped
    else if E3(m, root, p).large && InGig(p, q) then GigPiece(E3(m, root, p), q)
    else if !E3(m, root, p).large && E2(m, root, p).large && InMeg(p, q) then MegPiece(E2(m, root, p), q)
    else Resolve(m, root, q)
  }

  // The frame numbers of a large page do not run past the end of physical memory.
  predicate FramesFit(m: Memory, root: Frame, p: Page) {
    && (E3(m, root, p).large ==> E3(m, root, p).frame + 0x4_0000 <= 0x10_0000_0000)
    && (!E3(m, root, p).large && E2(m, root, p).large ==> E2(m, root, p).frame + 0x200 <= 0x10_0000_0000)
  }

  // What the walk of unmap_page_fix_size needs: tables down to the entry that maps `p` or holds its page table.
  predicate Removable(m: Memory, root: Frame, p: Page) {
    Next(E4(m, root, p)).Some? && E3(m, root, p).present && (!E3(m, root, p).large ==> E2(m, root, p).present)
  }

  // Under CR0.WP some store of the refilling is refused: for a read-only 1 GiB page always, for a read-only 2 MiB
  // page when one of the two entries above it is read-only too.
  predicate Refused(m: Memory, root: Frame, p: Page, writeProtect: bool) {
    var e4, e3, e2 := E4(m, root, p), E3(m, root, p), E2(m, root, p);
    if e3.large then writeProtect && !e3.writable else e2.large && MegRefused(e4, e3, e2, writeProtect)
  }

  // The frames that all of the page tables need.
  function FramesNeeded(m: Memory, root: Frame, p: Page): nat {
    if E3(m, root, p).large then 513 else if E2(m, root, p).large then 1 else 0
  }

  // The frames taken before the refused store.
  function FramesBefore(m: Memory, root: Frame, p: Page): nat {
    if E3(m, root, p).large then 2 else if E4(m, root, p).writable then 1 else 0
  }

  /**
   unmap_page_fix_size on one processor. It faults exactly when a store is refused and the frames last until then,
   and panics exactly when they do not last until then, or to the end.
  */
  method UnmapPageFixSize(s: AddressSpace, v: bv64) returns (r: Outcome)
    requires Tree(s.mem, s.root) && Fresh(s.mem, s.root, s.free) && PageOf(v).i4 != SELF
    requires Removable(s.mem, s.root, PageOf(v)) && FramesFit(s.mem, s.root, PageOf(v))
    modifies s`mem, s`free
    ensures r.Fault? <==> Refused(old(s.mem), s.root, PageOf(v), s.writeProtect)
                          && |old(s.free)| >= FramesBefore(old(s.mem), s.root, PageOf(v))
    ensures r.NoFrames? <==> |old(s.free)| < if Refused(old(s.mem), s.root, PageOf(v), s.writeProtect)
                             then FramesBefore(old(s.mem), s.root, PageOf(v))
                             else FramesNeeded(old(s.mem), s.root, PageOf(v))
    ensures r.Done? ==> |s.free| == |old(s.free)| - FramesNeeded(old(s.mem), s.root, PageOf(v))
    ensures r.Done? ==> Tree(s.mem, s.root) && Fresh(s.mem, s.root, s.free)
    ensures r.Done? ==> forall q: Page | q.i4 != SELF ::
              Resolve(s.mem, s.root, q) == AfterRemoval(old(s.mem), s.root, PageOf(v), q)
  {
    hide PageOf;
    var e3 := s.LoadPdpte(v);
    if e3.large {
      r := SplitGig(s, v);
      if !r.Done? { return; }
      assert Resolve(s.mem, s.root, PageOf(v)) == GigPiece(e3, PageOf(v));
    } else {
      var e2 := s.LoadPde(v);
      if e2.large {
        r := SplitMeg(s, v);
        if !r.Done? { return; }
        assert Resolve(s.mem, s.root, PageOf(v)) == MegPiece(e2, PageOf(v));
      }
    }
    s.UnmapPage(v);
    r := Done;
  }

  /**
   Splitting preserves meaning: every page but the removed one keeps its frame, if and only if the large entry
   holds a frame number of its own alignment (bit 12 of a large entry is a caching bit, and it is read as part
   of the address here).
   */
  lemma DemotionPreservesView(m: Memory, m': Memory, root: Frame, p: Page)
    requires p.i4 != SELF && Removable(m, root, p) && FramesFit(m, root, p)
    requires forall q: Page | q.i4 != SELF :: Resolve(m', root, q) == AfterRemoval(m, root, p, q)
    ensures View(m', root, p) == None
    ensures (forall q: Page | q.i4 != SELF && q != p :: View(m', root, q) == View(m, root, q)) <==>
            (E3(m, root, p).large ==> E3(m, root, p).frame % 0x4_0000 == 0) &&
            (!E3(m, root, p).large && E2(m, root, p).large ==> E2(m, root, p).frame % 0x200 == 0)
  {
    var e3, e2 := E3(m, root, p), E2(m, root, p);
    if e3.large {
      var q := p.(i1 := if p.i1 == 0 then 1 else 0);
      assert Resolve(m, root, q) == Leaf(Size1G, e3) && Resolve(m', root, q) == GigPiece(e3, q);
      forall q: Page | q.i4 != SELF && q != p && e3.frame % 0x4_0000 == 0
          ensures View(m', root, q) == View(m, root, q)
      {
        if InGig(p, q) {
          assert Resolve(m, root, q) == Leaf(Size1G, e3);
        }
      }
    } else if e2.large {
      var q := p.(i1 := if p.i1 == 0 then 1 else 0);
      assert Resolve(m, root, q) == Leaf(Size2M, e2) && Resolve(m', root, q) == MegPiece(e2, q);
      forall q: Page | q.i4 != SELF && q != p && e2.frame % 0x200 == 0
        ensures View(m', root, q) == View(m, root, q)
      {
        if InMeg(p, q) {
          assert Resolve(m, root, q) == Leaf(Size2M, e2);
        }
      }
    }
  }

  /** On words: the flags that are passed on are the bits that `& 0x3E` leaves. */
  lemma KeptFlagsOf(w: bv64)
    ensures IsFlags(w & 0x3E) && FlagsOf(w & 0x3E) == KeptFlags(EntryOf(w))
  {
    hide FrameOf;
    KeptBits(w);
  }

  lemma KeptBits(w: bv64)
    ensures RestOf(w & 0x3E) == RestOf(w) & 0xF && (w & 0x3E) & (PAGE_SIZE | ADDRESS) == 0
    ensures (w & 0x3E) & READ_WRITE != 0 <==> w & READ_WRITE != 0
  {}

  /**
   Every other page `q` of a large page whose entry is the word `w` ends with the word made of the address `a` of its
   frame, the present bit and bits 1 to 5 of `w`: a small page with the large one's permission and caching.
  */
  lemma SplitKeepsFlags(m: Memory, m': Memory, root: Frame, p: Page, q: Page, w: bv64, a: bv64)
    requires p.i4 != SELF && q.i4 != SELF && q != p && FramesFit(m, root, p)
    requires Resolve(m', root, q) == AfterRemoval(m, root, p, q)
    requires a & ADDRESS == a
    ensures E3(m, root, p).large && InGig(p, q) && E3(m, root, p) == EntryOf(w)
            && FrameOf(a) == FrameOf(w) + 512 * q.i2 + q.i1 ==>
            Resolve(m', root, q) == Leaf(Size4K, EntryOf(a | PRESENT | (w & 0x3E)))
    ensures !E3(m, root, p).large && E2(m, root, p).large && InMeg(p, q) && E2(m, root, p) == EntryOf(w)
            && FrameOf(a) == FrameOf(w) + q.i1 ==>
            Resolve(m', root, q) == Leaf(Size4K, EntryOf(a | PRESENT | (w & 0x3E)))
  {
    hide EntryOf, Resolve, KeptFlags, FrameOf, E3, E2;
    FrameField(w);
    SmallWord(w, a);
  }

  lemma FrameField(w: bv64)
    ensures EntryOf(w).frame == FrameOf(w)
  {}

  lemma SmallWord(w: bv64, a: bv64)
    requires a & ADDRESS == a
    ensures EntryOf(a | PRESENT | (w & 0x3E)) == Pointer(FrameOf(a), KeptFlags(EntryOf(w)))
  {
    hide EntryOf, KeptFlags, FlagsOf, IsFlags;
    KeptFlagsOf(w);
    OrIsPointer(a, w & 0x3E);
  }

  // A 2 MiB page at physical address 0 with bit 12 set in its entry: it reads as frame 1.
  const CACHED_LARGE_PAGE: Memory := map[
    Slot(1, SELF) := Entry(true, true, false, 1, 0),
    Slot(1, 0) := Entry(true, true, false, 2, 0),
    Slot(2, 0) := Entry(true, true, false, 3, 0),
    Slot(3, 0) := Entry(true, true, true, 1, 0)]

  lemma CachedTables(n: Node)
    requires Proper(n)
    ensures Table(CACHED_LARGE_PAGE, 1, n) ==
            if n == Root then Some(1) else if n == Pdpt(0) then Some(2) else if n == Pd(0, 0) then Some(3) else None
  {}

  /** An input on which the frames move: page 1 of that large page showed frame 1, and shows frame 2 afterwards. */
  lemma CachingBitMovesPages(m': Memory)
    requires forall q: Page | q.i4 != SELF ::
               Resolve(m', 1, q) == AfterRemoval(CACHED_LARGE_PAGE, 1, Page(0, 0, 0, 0), q)
    ensures var m, p, q := CACHED_LARGE_PAGE, Page(0, 0, 0, 0), Page(0, 0, 0, 1);
            && Tree(m, 1) && Fresh(m, 1, [4]) && Removable(m, 1, p) && FramesFit(m, 1, p)
            && View(m, 1, q) == Some(1) && View(m', 1, q) == Some(2)
  {
    forall n | Proper(n)
      ensures Table(CACHED_LARGE_PAGE, 1, n) ==
              if n == Root then Some(1) else if n == Pdpt(0) then Some(2) else if n == Pd(0, 0) then Some(3) else None
    {
      CachedTables(n);
    }
    assert Resolve(m', 1, Page(0, 0, 0, 1)) == MegPiece(CACHED_LARGE_PAGE[Slot(3, 0)], Page(0, 0, 0, 1));
  }
}
