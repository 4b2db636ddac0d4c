/**
 The boot loader's page tables: the new PML4 with its self-map, add_page_mapping in three page sizes, and the
 loop that maps the first 64 GiB of physical memory. Tables are reached by physical address here.
 */
module BootPaging {
  import opened Wrappers
  import opened PageTables
  import opened RecursiveWindow
  import opened KernelPaging
  import opened LargePages
  import opened EntryWords

  // `paddr | PAGE_SIZE | READ_WRITE | PRESENT`, without PAGE_SIZE for a small page.
  function LeafEntry(paddr: Frame, large: bool): Entry { Entry(true, true, large, paddr, 0) }

  /** On words: the leaf entry of a large page, and of a small page or a new table, is made of these bits. */
  lemma LargeLeafWord(p: bv64)
    requires p & ADDRESS == p
    ensures EntryOf(p | PAGE_SIZE | READ_WRITE | PRESENT) == LeafEntry(FrameOf(p), true)
  {
    AddressEntry(p);
    LargeWord(p);
  }

  lemma LargeWord(p: bv64)
    ensures EntryOf(p | PAGE_SIZE | READ_WRITE | PRESENT) ==
            EntryOf(p).(large := true, writable := true, present := true)
  {
    hide EntryOf;
    OrIsLarge(p);
    WritablePresent(p | PAGE_SIZE);
  }

  lemma WritablePresent(w: bv64)
    ensures EntryOf(w | READ_WRITE | PRESENT) == EntryOf(w).(writable := true, present := true)
  {
    hide EntryOf;
    OrWriteIsRaiseWrite(w);
    OrIsPresent(w | READ_WRITE);
  }

  lemma SmallLeafWord(p: bv64)
    requires p & ADDRESS == p
    ensures EntryOf(p | PRESENT | READ_WRITE) == LeafEntry(FrameOf(p), false)
    ensures LeafEntry(FrameOf(p), false) == Pointer(FrameOf(p), RW_FLAG)
  {
    AddressEntry(p);
    PresentWritable(p);
  }

  lemma PresentWritable(p: bv64)
    ensures EntryOf(p | PRESENT | READ_WRITE) == EntryOf(p).(present := true, writable := true)
  {
    hide EntryOf;
    OrIsPresent(p);
    OrWriteIsRaiseWrite(p | PRESENT);
  }

  // Page `q` lies in the page of the given size at `p`.
  predicate Covers(size: Size, p: Page, q: Page) {
    match size
    case Size4K => q == p
    case Size2M => InMeg(p, q)
    case Size1G => InGig(p, q)
  }

  // The frames of a page of this size start at a multiple of its own length.
  predicate Aligned(size: Size, paddr: Frame) {
    match size
    case Size4K => true
    case Size2M => paddr % 0x200 == 0
    case Size1G => paddr % 0x4_0000 == 0
  }

  // NEXT_STRUCT finds the table behind the entry: it is not a large page, and has no high bits that would stay in
  // the address.
  predicate LeadsOn(e: Entry) { !e.large && HighBitsClear(e) }

  lemma RaisedLeadsOn(e: Entry, f: Frame)
    ensures LeadsOn(Pointer(f, RW_FLAG)) && (LeadsOn(e) ==> LeadsOn(Raise(e, RW_FLAG)))
    ensures Pointer(f, RW_FLAG).writable && Raise(e, RW_FLAG).writable
  {}

  // The entries that add_page_mapping takes for tables are such.
  predicate ClearPath(m: Memory, root: Frame, p: Page, size: Size) {
    var e4, e3, e2 := E4(m, root, p), E3(m, root, p), E2(m, root, p);
    && (e4.present ==> LeadsOn(e4))
    && (!size.Size1G? && e4.present && e3.present ==> LeadsOn(e3))
    && (size.Size4K? && e4.present && e3.present && e2.present ==> LeadsOn(e2))
  }

  // The pages of the given size at `p` resolve to one leaf; every other page resolves as before.
  ghost predicate MappedAs(m: Memory, m': Memory, root: Frame, p: Page, size: Size, paddr: Frame) {
    forall q: Page | q.i4 != SELF ::
      Resolve(m', root, q) == if Covers(size, p, q) then Leaf(size, LeafEntry(paddr, !size.Size4K?))
        else Resolve(m, root, q)
  }

  /** Writing a leaf of any size over an entry drops the tables below it and changes no other page. */
  lemma LeafReplaces(m: Memory, m': Memory, root: Frame, free: seq<Frame>, p: Page, size: Size, paddr: Frame)
    requires Tree(m, root) && Fresh(m, root, free) && p.i4 != SELF
    requires Next(E4(m, root, p)).Some?
    requires !size.Size1G? ==> Next(E3(m, root, p)).Some?
    requires size.Size4K? ==> Next(E2(m, root, p)).Some?
    requires var s := match size
                      case Size1G => Slot(E4(m, root, p).frame, p.i3)
                      case Size2M => Slot(E3(m, root, p).frame, p.i2)
                      case Size4K => Slot(E2(m, root, p).frame, p.i1);
             SameExcept(m, m', s) && Read(m', s) == LeafEntry(paddr, !size.Size4K?)
    ensures Tree(m', root) && Fresh(m', root, free)
    ensures MappedAs(m, m', root, p, size, paddr)
  {
    PathFrames(m, root, p);
    assert Table(m, root, Root) == Some(root);
    var n := match size case Size1G => Pdpt(p.i4) case Size2M => Pd(p.i4, p.i3) case Size4K => Pt(p.i4, p.i3, p.i2);
    var j := IndexAt(n, p);
    forall q | Proper(q) && !Below(n, j, q) ensures Table(m', root, q) == Table(m, root, q) {
      WriteKeepsTables(m, m', root, n, j, q);
    }
    assert forall q | Proper(q) && Below(n, j, q) :: Table(m', root, q) == None;
    forall q: Page | q.i4 != SELF && !Through(n, j, q) ensures Resolve(m', root, q) == Resolve(m, root, q) {
      WriteKeepsPages(m, m', root, n, j, q);
    }
  }

  // What survives a call that ran out of frames: the tree and every mapping.
  ghost predicate Undisturbed(m: Memory, m': Memory, root: Frame, free': seq<Frame>) {
    Tree(m', root) && Fresh(m', root, free') && SameView(m, m', root)
  }

  // Frames add_page_mapping takes for missing tables.
  function TablesNeeded(m: Memory, root: Frame, p: Page, size: Size): nat {
    var missing := Missing(m, root, p);
    match size
    case Size4K => missing
    case Size2M => if missing < 2 then 0 else missing - 1
    case Size1G => if missing < 3 then 0 else 1
  }

  class BootTables {
    var mem: Memory
    var free: seq<Frame>

    constructor (mem: Memory, free: seq<Frame>)
      ensures this.mem == mem && this.free == free
    {
      this.mem, this.free := mem, free;
    }

    // One `if` of add_page_mapping: a zeroed table for a missing entry, and READ_WRITE for any.
    method ProvideTable(s: Slot) returns (ok: bool)
      requires 0 !in free && (free != [] ==> s.frame != free[0])
      modifies this
      ensures ok <==> Read(old(mem), s).present || old(free) != []
      ensures ok ==> Provided(old(mem), mem, s, old(free), free, RW_FLAG)
      ensures !ok ==> mem == old(mem) && free == old(free)
    {
      if !Read(mem, s).present {
        if free == [] {
          return false;
        }
        var f := free[0];
        free := free[1..];
        for i := 0 to 512
          invariant free == old(free)[1..]
          invariant forall k: Index | k < i :: Read(mem, Slot(f, k)) == ZERO
          invariant forall x: Slot | x.frame != f :: Read(mem, x) == Read(old(mem), x)
        {
          mem := mem[Slot(f, i) := ZERO];
        }
        mem := mem[s := Pointer(f, RW_FLAG)];
      }
      mem := mem[s := RaiseWrite(Read(mem, s))];
      ok := true;
      RaiseWriteIsRaise(Read(old(mem), s));
    }

    // The PML4 entry; then the PDPT entry; then the PD entry.
    method ProvidePdpt(root: Frame, v: bv64) returns (ok: bool)
      requires Tree(mem, root) && Fresh(mem, root, free) && PageOf(v).i4 != SELF
      requires E4(mem, root, PageOf(v)).present ==> LeadsOn(E4(mem, root, PageOf(v)))
      modifies this
      ensures ok <==> E4(old(mem), root, PageOf(v)).present || old(free) != []
      ensures Undisturbed(old(mem), mem, root, free)
      ensures ok ==> Provided(old(mem), mem, Slot(root, PageOf(v).i4), old(free), free, RW_FLAG)
      ensures ok ==> |free| == |old(free)| - (if E4(old(mem), root, PageOf(v)).present then 0 else 1)
      ensures ok ==> E4(mem, root, PageOf(v)).present && LeadsOn(E4(mem, root, PageOf(v)))
      ensures ok ==> E4(mem, root, PageOf(v)).writable
      ensures ok ==> E3(mem, root, PageOf(v)) == if E4(old(mem), root, PageOf(v)).present
          then E3(old(mem), root, PageOf(v)) else ZERO
      ensures ok && E4(old(mem), root, PageOf(v)).present && Next(E3(old(mem), root, PageOf(v))).Some? ==>
                E2(mem, root, PageOf(v)) == E2(old(mem), root, PageOf(v))
      ensures !ok ==> mem == old(mem) && free == old(free)
    {
      hide PageOf, HighBitsClear;
      assert Table(mem, root, Root) == Some(root);
      PathFrames(mem, root, PageOf(v));
      ok := ProvideTable(Slot(root, PageOf(v).i4));
      if ok {
        RaisedLeadsOn(E4(old(mem), root, PageOf(v)), if old(free) == [] then 0 else old(free)[0]);
        ProvidedKeepsTree(old(mem), mem, root, Root, PageOf(v).i4, old(free), free, RW_FLAG);
      }
    }

    method ProvidePd(root: Frame, v: bv64) returns (ok: bool)
      requires Tree(mem, root) && Fresh(mem, root, free) && PageOf(v).i4 != SELF
      requires E4(mem, root, PageOf(v)).present && LeadsOn(E4(mem, root, PageOf(v)))
      requires E3(mem, root, PageOf(v)).present ==> LeadsOn(E3(mem, root, PageOf(v)))
      modifies this
      ensures ok <==> E3(old(mem), root, PageOf(v)).present || old(free) != []
      ensures Undisturbed(old(mem), mem, root, free)
      ensures ok ==> Provided(old(mem), mem, Slot(E4(old(mem), root, PageOf(v)).frame, PageOf(v).i3), old(free),
          free, RW_FLAG)
      ensures ok ==> |free| == |old(free)| - (if E3(old(mem), root, PageOf(v)).present then 0 else 1)
      ensures ok ==> E4(mem, root, PageOf(v)) == E4(old(mem), root, PageOf(v))
      ensures ok ==> E3(mem, root, PageOf(v)).present && LeadsOn(E3(mem, root, PageOf(v)))
      ensures ok ==> E3(mem, root, PageOf(v)).writable
      ensures ok ==> E2(mem, root, PageOf(v)) == if E3(old(mem), root, PageOf(v)).present
          then E2(old(mem), root, PageOf(v)) else ZERO
      ensures !ok ==> mem == old(mem) && free == old(free)
    {
      hide PageOf, HighBitsClear;
      PathFrames(mem, root, PageOf(v));
      ok := ProvideTable(Slot(E4(mem, root, PageOf(v)).frame, PageOf(v).i3));
      if ok {
        RaisedLeadsOn(E3(old(mem), root, PageOf(v)), if old(free) == [] then 0 else old(free)[0]);
        ProvidedKeepsTree(old(mem), mem, root, Pdpt(PageOf(v).i4), PageOf(v).i3, old(free), free, RW_FLAG);
      }
    }

    method ProvidePt(root: Frame, v: bv64) returns (ok: bool)
      requires Tree(mem, root) && Fresh(mem, root, free) && PageOf(v).i4 != SELF
      requires E4(mem, root, PageOf(v)).present && LeadsOn(E4(mem, root, PageOf(v)))
      requires E3(mem, root, PageOf(v)).present && LeadsOn(E3(mem, root, PageOf(v)))
      requires E2(mem, root, PageOf(v)).present ==> LeadsOn(E2(mem, root, PageOf(v)))
      modifies this
      ensures ok <==> E2(old(mem), root, PageOf(v)).present || old(free) != []
      ensures Undisturbed(old(mem), mem, root, free)
      ensures ok ==> Provided(old(mem), mem, Slot(E3(old(mem), root, PageOf(v)).frame, PageOf(v).i2), old(free),
          free, RW_FLAG)
      ensures ok ==> |free| == |old(free)| - (if E2(old(mem), root, PageOf(v)).present then 0 else 1)
      ensures ok ==> E4(mem, root, PageOf(v)) == E4(old(mem), root, PageOf(v))
      ensures ok ==> E3(mem, root, PageOf(v)) == E3(old(mem), root, PageOf(v))
      ensures ok ==> E2(mem, root, PageOf(v)).present && LeadsOn(E2(mem, root, PageOf(v)))
      ensures ok ==> E2(mem, root, PageOf(v)).writable
      ensures !ok ==> mem == old(mem) && free == old(free)
    {
      hide PageOf, HighBitsClear;
      PathFrames(mem, root, PageOf(v));
      ok := ProvideTable(Slot(E3(mem, root, PageOf(v)).frame, PageOf(v).i2));
      if ok {
        RaisedLeadsOn(E2(old(mem), root, PageOf(v)), if old(free) == [] then 0 else old(free)[0]);
        ProvidedKeepsTree(old(mem), mem, root, Pd(PageOf(v).i4, PageOf(v).i3), PageOf(v).i2, old(free), free, RW_FLAG);
      }
    }

    /** add_page_mapping: `ok` is EFI_SUCCESS. A call that runs out of frames leaves every mapping alone. */
    method AddPageMapping(root: Frame, v: bv64, paddr: Frame, size: Size) returns (ok: bool)
      requires Tree(mem, root) && Fresh(mem, root, free)
      requires PageOf(v).i4 != SELF && ClearPath(mem, root, PageOf(v), size)
      modifies this
      ensures ok <==> |old(free)| >= TablesNeeded(old(mem), root, PageOf(v), size)
      ensures Tree(mem, root) && Fresh(mem, root, free)
      ensures ok ==> MappedAs(old(mem), mem, root, PageOf(v), size, paddr)
      ensures ok ==> |free| == |old(free)| - TablesNeeded(old(mem), root, PageOf(v), size)
      ensures ok ==> E4(mem, root, PageOf(v)).present && LeadsOn(E4(mem, root, PageOf(v)))
      ensures ok ==> E4(mem, root, PageOf(v)).writable
      ensures ok ==> forall q | Covers(size, PageOf(v), q) :: WalkWritable(mem, root, q)
      ensures !ok ==> SameView(old(mem), mem, root)
    {
      hide PageOf, Provided, Tree, Fresh, HighBitsClear;
      ok := ProvidePdpt(root, v);
      if !ok { return; }
      if size.Size1G? {
        WriteLeaf(root, v, paddr, size);
        return;
      }
      ok := ProvidePd(root, v);
      if !ok { return; }
      if size.Size2M? {
        WriteLeaf(root, v, paddr, size);
        return;
      }
      ok := ProvidePt(root, v);
      if !ok { return; }
      WriteLeaf(root, v, paddr, size);
    }

    // The entry that maps the page: in the PDPT, the PD or the PT, by size.
    method WriteLeaf(root: Frame, v: bv64, paddr: Frame, size: Size)
      requires Tree(mem, root) && Fresh(mem, root, free) && PageOf(v).i4 != SELF
      requires E4(mem, root, PageOf(v)).present && LeadsOn(E4(mem, root, PageOf(v)))
      requires !size.Size1G? ==> E3(mem, root, PageOf(v)).present && LeadsOn(E3(mem, root, PageOf(v)))
      requires size.Size4K? ==> E2(mem, root, PageOf(v)).present && LeadsOn(E2(mem, root, PageOf(v)))
      requires E4(mem, root, PageOf(v)).writable && (!size.Size1G? ==> E3(mem, root, PageOf(v)).writable)
      requires size.Size4K? ==> E2(mem, root, PageOf(v)).writable
      modifies `mem
      ensures forall q | Covers(size, PageOf(v), q) :: WalkWritable(mem, root, q)
      ensures Tree(mem, root) && Fresh(mem, root, free)
      ensures MappedAs(old(mem), mem, root, PageOf(v), size, paddr)
      ensures E4(mem, root, PageOf(v)) == E4(old(mem), root, PageOf(v))
    {
      hide PageOf, HighBitsClear;
      PathFrames(mem, root, PageOf(v));
      match size {
      case Size1G => mem := mem[Slot(E4(mem, root, PageOf(v)).frame, PageOf(v).i3) := LeafEntry(paddr, true)];
      case Size2M => mem := mem[Slot(E3(mem, root, PageOf(v)).frame, PageOf(v).i2) := LeafEntry(paddr, true)];
      case Size4K => mem := mem[Slot(E2(mem, root, PageOf(v)).frame, PageOf(v).i1) := LeafEntry(paddr, false)];
      }
      LeafReplaces(old(mem), mem, root, free, PageOf(v), size, paddr);
    }
  }

  lemma RaiseWriteIsRaise(e: Entry)
    ensures RaiseWrite(e) == Raise(e, RW_FLAG)
  {}

  /** In pages: an aligned mapping gives each page its own frame, in order, and changes no other page. */
  lemma MappedAsIsMapUpdate(m: Memory, m': Memory, root: Frame, p: Page, size: Size, paddr: Frame, q: Page)
    requires MappedAs(m, m', root, p, size, paddr) && Aligned(size, paddr) && q.i4 != SELF
    ensures View(m', root, q) ==
            if !Covers(size, p, q) then View(m, root, q)
            else match size
                 case Size4K => Some(paddr)
                 case Size2M => Some(paddr + q.i1)
                 case Size1G => Some(paddr + 512 * q.i2 + q.i1)
  {}

  // ----- the window onto physical memory -----

  const PMAP_LINADDR: bv64 := 0xFFFF_FF00_0000_0000
  const KERNEL_LINADDR: bv64 := 0xFFFF_FF10_0000_0000
  const PMAP: Index := 510

  function PhysToVirt(paddr: bv64): bv64 { paddr + PMAP_LINADDR }

  // The loop counter in GiB, and the page it stands for.
  lemma PhysToVirtPage(paddr: bv64)
    requires paddr < 0x10_0000_0000 && paddr & 0x3FFF_FFFF == 0
    ensures PageOf(PhysToVirt(paddr)) == Page(PMAP, Gig(paddr), 0, 0)
  {}

  function Gig(paddr: bv64): Index { ((paddr >> 30) & 511) as bv9 as int }

  lemma NextGig(paddr: bv64)
    requires paddr < 0x10_0000_0000 && paddr & 0x3FFF_FFFF == 0
    ensures Gig(paddr) < 64 && Gig(paddr + 0x4000_0000) == Gig(paddr) + 1
    ensures paddr < paddr + 0x4000_0000 <= 0x10_0000_0000 && (paddr + 0x4000_0000) & 0x3FFF_FFFF == 0
    ensures Gig(paddr) == 63 <==> paddr + 0x4000_0000 == 0x10_0000_0000
  {}

  lemma FirstGig()
    ensures Gig(0) == 0 && Gig(0x10_0000_0000) == 64
  {}

  // Pages of the window below its `n`-th GiB show physical memory in order; every other page is as in `m`.
  ghost predicate WindowOpen(m: Memory, m': Memory, root: Frame, n: nat)
    requires n <= 64
  {
    forall q: Page | q.i4 != SELF :: View(m', root, q) == WindowView(m, root, n, q)
  }

  function WindowView(m: Memory, root: Frame, n: nat, q: Page): Option<Frame>
    requires n <= 64
  {
    if q.i4 == PMAP && q.i3 < n then Some(0x4_0000 * q.i3 + 512 * q.i2 + q.i1) else View(m, root, q)
  }

  lemma WindowStep(m: Memory, m1: Memory, m2: Memory, root: Frame, n: nat)
    requires n < 64 && WindowOpen(m, m1, root, n)
    requires MappedAs(m1, m2, root, Page(PMAP, n, 0, 0), Size1G, 0x4_0000 * n)
    ensures WindowOpen(m, m2, root, n + 1)
  {
    hide View, MappedAs;
    forall q: Page | q.i4 != SELF ensures View(m2, root, q) == WindowView(m, root, n + 1, q) {
      MappedAsIsMapUpdate(m1, m2, root, Page(PMAP, n, 0, 0), Size1G, 0x4_0000 * n, q);
      assert View(m1, root, q) == WindowView(m, root, n, q);
    }
  }

  // The window's first `n` GiB are large pages that may be written.
  ghost predicate WindowWritable(m: Memory, root: Frame, n: nat) {
    forall q: Page | q.i4 == PMAP && q.i3 < n ::
      Resolve(m, root, q).Leaf? && Resolve(m, root, q).size.Size1G? && Resolve(m, root, q).entry.writable
  }

  lemma WritableStep(m: Memory, m': Memory, root: Frame, n: Index, paddr: Frame)
    requires WindowWritable(m, root, n) && MappedAs(m, m', root, Page(PMAP, n, 0, 0), Size1G, paddr)
    ensures WindowWritable(m', root, n + 1)
  {
    forall q: Page | q.i4 == PMAP && q.i3 < n + 1
      ensures Resolve(m', root, q).Leaf? && Resolve(m', root, q).size.Size1G? && Resolve(m', root, q).entry.writable
    {
      assert !Covers(Size1G, Page(PMAP, n, 0, 0), q) ==> Resolve(m, root, q).Leaf?;
    }
  }

  lemma LargeIsWritable(m: Memory, root: Frame, q: Page)
    requires Resolve(m, root, q).Leaf? && Resolve(m, root, q).size.Size1G? && Resolve(m, root, q).entry.writable
    requires Read(m, Slot(root, q.i4)).writable
    ensures WalkWritable(m, root, q)
  {}

  /** The loop that maps the first 64 GiB at PMAP_LINADDR. It stops at the first failure, as the boot loader does. */
  method MapPhysicalMemory(s: BootTables, root: Frame) returns (ok: bool)
    requires Tree(s.mem, root) && Fresh(s.mem, root, s.free)
    requires var e := Read(s.mem, Slot(root, PMAP)); e.present ==> LeadsOn(e)
    modifies s
    ensures ok <==> Read(old(s.mem), Slot(root, PMAP)).present || old(s.free) != []
    ensures Tree(s.mem, root) && Fresh(s.mem, root, s.free)
    ensures if ok then WindowOpen(old(s.mem), s.mem, root, 64) else SameView(old(s.mem), s.mem, root)
    ensures ok ==> forall q: Page | q.i4 == PMAP && q.i3 < 64 :: WalkWritable(s.mem, root, q)
  {
    hide PageOf, Gig, PhysToVirt, Tree, Fresh, WindowOpen, HighBitsClear, WalkWritable, Resolve;
    var paddr: bv64 := 0;
    FirstGig();
    WindowShut(s.mem, root);
    ok := true;
    while paddr < 0x10_0000_0000
      invariant paddr <= 0x10_0000_0000 && paddr & 0x3FFF_FFFF == 0 && Gig(paddr) <= 64
      invariant Gig(paddr) == 0 <==> paddr == 0
      invariant Gig(paddr) == 64 <==> paddr == 0x10_0000_0000
      invariant Tree(s.mem, root) && Fresh(s.mem, root, s.free)
      invariant ok && WindowOpen(old(s.mem), s.mem, root, Gig(paddr))
      invariant paddr == 0 ==> s.mem == old(s.mem) && s.free == old(s.free)
      invariant paddr > 0 ==> Read(old(s.mem), Slot(root, PMAP)).present || old(s.free) != []
      invariant paddr > 0 ==> Read(s.mem, Slot(root, PMAP)).present && Read(s.mem, Slot(root, PMAP)).writable
      invariant WindowWritable(s.mem, root, Gig(paddr))
      invariant Read(s.mem, Slot(root, PMAP)).present ==> LeadsOn(Read(s.mem, Slot(root, PMAP)))
      decreases 0x10_0000_0000 - paddr
    {
      NextGig(paddr);
      PhysToVirtPage(paddr);
      ghost var m1 := s.mem;
      ok := s.AddPageMapping(root, PhysToVirt(paddr), 0x4_0000 * Gig(paddr), Size1G);
      if !ok { return; }
      WindowStep(old(s.mem), m1, s.mem, root, Gig(paddr));
      WritableStep(m1, s.mem, root, Gig(paddr), 0x4_0000 * Gig(paddr));
      paddr := paddr + 0x4000_0000;
    }
    forall q: Page | q.i4 == PMAP && q.i3 < 64 ensures WalkWritable(s.mem, root, q) {
      LargeIsWritable(s.mem, root, q);
    }
  }

  lemma WindowShut(m: Memory, root: Frame)
    ensures WindowOpen(m, m, root, 0)
  {}

  // The frame number of a physical address below 512 GiB: its digits to base 512, from bit 12 up.
  function PhysFrame(p: bv64): Frame {
    0x4_0000 * Gig(p) + 512 * (((p >> 21) & 511) as bv9 as int) + ((p >> 12) & 511) as bv9 as int
  }

  lemma PhysToVirtDigits(p: bv64)
    requires p < 0x10_0000_0000
    ensures PageOf(PhysToVirt(p)) == Page(PMAP, Gig(p), ((p >> 21) & 511) as bv9 as int,
        ((p >> 12) & 511) as bv9 as int)
    ensures Gig(p) < 64 && PhysToVirt(p) & 0xFFF == p & 0xFFF
  {}

  lemma AboveKernelStart(v: bv64)
    requires v >= KERNEL_LINADDR
    ensures PageOf(v).i4 == SELF || (PageOf(v).i4 == PMAP && PageOf(v).i3 >= 64)
  {}

  /** After the loop PHYS_TO_VIRT(p) translates to p for every p below 64 GiB ... */
  lemma PhysToVirtTranslates(m: Memory, m': Memory, root: Frame, p: bv64)
    requires WindowOpen(m, m', root, 64) && p < 0x10_0000_0000
    ensures View(m', root, PageOf(PhysToVirt(p))) == Some(PhysFrame(p))
    ensures PhysToVirt(p) & 0xFFF == p & 0xFFF
  {
    hide PageOf, PhysToVirt, Gig;
    PhysToVirtDigits(p);
  }

  /** ... and the kernel's own mappings are the ones made before. */
  lemma KernelMappingsKept(m: Memory, m': Memory, root: Frame, v: bv64)
    requires WindowOpen(m, m', root, 64) && v >= KERNEL_LINADDR && PageOf(v).i4 != SELF
    ensures View(m', root, PageOf(v)) == View(m, root, PageOf(v))
  {
    hide PageOf;
    AboveKernelStart(v);
  }

  /** The new PML4: the firmware's entries copied, the last one replaced by the self-map. */
  method MakePml4(mem: Memory, oldPml4: Frame, pml4: Frame, free: seq<Frame>) returns (m: Memory)
    requires Distinct(mem, oldPml4) && Fresh(mem, oldPml4, [pml4] + free)
    ensures Tree(m, pml4) && Fresh(m, pml4, free)
    ensures forall q: Page | q.i4 != SELF :: Resolve(m, pml4, q) == Resolve(mem, oldPml4, q)
  {
    m := mem;
    for i := 0 to 512
      invariant forall k: Index | k < i :: Read(m, Slot(pml4, k)) == Read(mem, Slot(oldPml4, k))
      invariant forall x: Slot | x.frame != pml4 :: Read(m, x) == Read(mem, x)
    {
      FreshFramesApart(mem, oldPml4, pml4, free);
      m := m[Slot(pml4, i) := Read(m, Slot(oldPml4, i))];
    }
    m := m[Slot(pml4, SELF) := Pointer(pml4, RW_FLAG)];
    CopiedRoot(mem, m, oldPml4, pml4, free);
  }

  lemma FreshFramesApart(m: Memory, oldPml4: Frame, pml4: Frame, free: seq<Frame>)
    requires Fresh(m, oldPml4, [pml4] + free)
    ensures pml4 != oldPml4 && pml4 !in free
    ensures forall n | Proper(n) && Table(m, oldPml4, n).Some? ::
              Table(m, oldPml4, n).value != pml4 && Table(m, oldPml4, n).value !in free
  {
    var all := [pml4] + free;
    assert all[0] == pml4 && forall i | 0 <= i < |free| :: all[i + 1] == free[i];
    assert Table(m, oldPml4, Root) == Some(oldPml4);
  }

  lemma CopiedRoot(mem: Memory, m: Memory, oldPml4: Frame, pml4: Frame, free: seq<Frame>)
    requires Distinct(mem, oldPml4) && Fresh(mem, oldPml4, [pml4] + free)
    requires forall k: Index | k != SELF :: Read(m, Slot(pml4, k)) == Read(mem, Slot(oldPml4, k))
    requires forall x: Slot | x.frame != pml4 :: Read(m, x) == Read(mem, x)
    requires Read(m, Slot(pml4, SELF)) == Pointer(pml4, RW_FLAG)
    ensures Tree(m, pml4) && Fresh(m, pml4, free)
    ensures forall q: Page | q.i4 != SELF :: Resolve(m, pml4, q) == Resolve(mem, oldPml4, q)
  {
    FreshFramesApart(mem, oldPml4, pml4, free);
    var all := [pml4] + free;
    assert forall i | 0 <= i < |free| :: all[i + 1] == free[i];
    forall n | Proper(n) && !n.Root? ensures Table(m, pml4, n) == Table(mem, oldPml4, n) {
      CopiedTable(mem, m, oldPml4, pml4, free, n);
    }
    forall q: Page | q.i4 != SELF ensures Resolve(m, pml4, q) == Resolve(mem, oldPml4, q) {
      CopiedTable(mem, m, oldPml4, pml4, free, Pt(q.i4, q.i3, q.i2));
      var t3, t2 := Table(mem, oldPml4, Pdpt(q.i4)), Table(mem, oldPml4, Pd(q.i4, q.i3));
    }
  }

  lemma CopiedTable(mem: Memory, m: Memory, oldPml4: Frame, pml4: Frame, free: seq<Frame>, n: Node)
    requires Fresh(mem, oldPml4, [pml4] + free) && Proper(n) && !n.Root?
    requires forall k: Index | k != SELF :: Read(m, Slot(pml4, k)) == Read(mem, Slot(oldPml4, k))
    requires forall x: Slot | x.frame != pml4 :: Read(m, x) == Read(mem, x)
    ensures Table(m, pml4, n) == Table(mem, oldPml4, n)
  {
    FreshFramesApart(mem, oldPml4, pml4, free);
    var t3 := Table(mem, oldPml4, Pdpt(n.i4));
    if n.Pt? && t3.Some? {
      var t2 := Table(mem, oldPml4, Pd(n.i4, n.i3));
    }
  }
}
