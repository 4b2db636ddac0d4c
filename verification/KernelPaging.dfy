/**
 map_page and unmap_page of the kernel: every table access goes through the recursive window, upper-level
 write permission is raised for the access and put back, and missing tables come from the page allocator.
 */
module KernelPaging {
  import opened Wrappers
  import opened PageTables
  import opened RecursiveWindow

  const NO_FLAGS := Flags(false, 0)
  const RW_FLAG := Flags(true, 0)

  // Frames the allocator may hand out: distinct, not frame 0, none of them a table.
  ghost predicate Fresh(m: Memory, root: Frame, free: seq<Frame>) {
    && (forall i, j | 0 <= i < j < |free| :: free[i] != free[j])
    && 0 !in free
    && (forall n | Proper(n) && Table(m, root, n).Some? :: Table(m, root, n).value !in free)
  }

  // No large page on the way to `p`.
  predicate SmallPath(m: Memory, root: Frame, p: Page) {
    && (E4(m, root, p).present ==> !E4(m, root, p).large)
    && (E4(m, root, p).present && E3(m, root, p).present ==> !E3(m, root, p).large)
    && (E4(m, root, p).present && E3(m, root, p).present && E2(m, root, p).present ==> !E2(m, root, p).large)
  }

  /** The outcome for one upper-level entry in slot `s`: flags added to a present one, else a zeroed table. */
  ghost predicate Provided(m: Memory, m': Memory, s: Slot, free: seq<Frame>, free': seq<Frame>, flags: Flags) {
    if Read(m, s).present then
      free' == free && Read(m', s) == Raise(Read(m, s), flags) && SameExcept(m, m', s)
    else
      && |free| > 0 && free' == free[1..]
      && Read(m', s) == Pointer(free[0], flags)
      && (forall k: Index :: Read(m', Slot(free[0], k)) == ZERO)
      && (forall x: Slot | x != s && x.frame != free[0] :: Read(m', x) == Read(m, x))
  }

  /** Providing the entry adds at most the one table it points to. */
  lemma ProvidedTable(m: Memory, m': Memory, root: Frame, n: Node, j: Index, free: seq<Frame>, free': seq<Frame>,
      flags: Flags, q: Node)
    requires Tree(m, root) && Fresh(m, root, free)
    requires Proper(n) && !n.Pt? && Table(m, root, n).Some?
    requires var s := Slot(Table(m, root, n).value, j);
             (Read(m, s).present ==> !Read(m, s).large) && Provided(m, m', s, free, free', flags)
    requires Proper(q)
    ensures Table(m', root, q) ==
            if !Read(m, Slot(Table(m, root, n).value, j)).present && q == Child(n, j) then Some(free[0])
            else Table(m, root, q)
  {
    assert Table(m, root, Root) == Some(root);
    if !q.Root? {
      var t3 := Table(m, root, Pdpt(q.i4));
      if t3.Some? && !q.Pdpt? {
        var t2 := Table(m, root, Pd(q.i4, q.i3));
      }
    }
  }

  /** Providing an upper-level entry keeps the tree, the allocator's frames apart from it, and every mapping. */
  lemma ProvidedKeepsTree(m: Memory, m': Memory, root: Frame, n: Node, j: Index, free: seq<Frame>, free': seq<Frame>,
      flags: Flags)
    requires Tree(m, root) && Fresh(m, root, free)
    requires Proper(n) && !n.Pt? && (n.Root? ==> j != SELF) && Table(m, root, n).Some?
    requires var s := Slot(Table(m, root, n).value, j);
             (Read(m, s).present ==> !Read(m, s).large) && Provided(m, m', s, free, free', flags)
    ensures Tree(m', root) && Fresh(m', root, free') && SameView(m, m', root)
    ensures forall q | Proper(q) && q != Child(n, j) :: Table(m', root, q) == Table(m, root, q)
  {
    assert Table(m, root, Root) == Some(root);
    forall q | Proper(q)
      ensures Table(m', root, q) ==
              if !Read(m, Slot(Table(m, root, n).value, j)).present && q == Child(n, j) then Some(free[0])
              else Table(m, root, q)
    {
      ProvidedTable(m, m', root, n, j, free, free', flags, q);
    }
    forall p: Page | p.i4 != SELF ensures Resolve(m', root, p) == Resolve(m, root, p) {
      ProvidedKeepsPage(m, m', root, n, j, free, free', flags, p);
    }
  }

  lemma ProvidedKeepsPage(m: Memory, m': Memory, root: Frame, n: Node, j: Index, free: seq<Frame>, free': seq<Frame>,
      flags: Flags, p: Page)
    requires Tree(m, root) && Fresh(m, root, free)
    requires Proper(n) && !n.Pt? && Table(m, root, n).Some?
    requires var s := Slot(Table(m, root, n).value, j);
             (Read(m, s).present ==> !Read(m, s).large) && Provided(m, m', s, free, free', flags)
    requires p.i4 != SELF
    ensures Resolve(m', root, p) == Resolve(m, root, p)
  {
    assert Table(m, root, Root) == Some(root);
    var t3 := Table(m, root, Pdpt(p.i4));
    if t3.Some? {
      var t2 := Table(m, root, Pd(p.i4, p.i3));
      if t2.Some? {
        var t1 := Table(m, root, Pt(p.i4, p.i3, p.i2));
      }
    }
  }

  // ----- the pages a table covers, as the zeroing loops address them -----

  function PdptPart(v: bv64, i: bv64): bv64 { (v & 0xFFFF_FF80_0000_0000) + 0x4000_0000 * i }
  function PdPart(v: bv64, i: bv64): bv64 { (v & 0xFFFF_FFFF_C000_0000) + 0x20_0000 * i }
  function PtPart(v: bv64, i: bv64): bv64 { (v & 0xFFFF_FFFF_FFE0_0000) + 0x1000 * i }

  lemma NextPart(i: bv64)
    requires i < 512
    ensures (i + 1) as int == i as int + 1 && 0 <= i as int < 512
  {}

  lemma NarrowPart(i: bv64)
    requires i < 512
    ensures (i as bv9) as int == i as int
  {}

  lemma PdptParts(v: bv64, i: bv64)
    requires i < 512
    ensures 0 <= i as int < 512
    ensures PageOf(PdptPart(v, i)) == Page(PageOf(v).i4, i as int, 0, 0)
  {
    NarrowPart(i);
  }

  lemma PdParts(v: bv64, i: bv64)
    requires i < 512
    ensures 0 <= i as int < 512
    ensures PageOf(PdPart(v, i)) == Page(PageOf(v).i4, PageOf(v).i3, i as int, 0)
  {
    NarrowPart(i);
  }

  lemma PtParts(v: bv64, i: bv64)
    requires i < 512
    ensures 0 <= i as int < 512
    ensures PageOf(PtPart(v, i)) == Page(PageOf(v).i4, PageOf(v).i3, PageOf(v).i2, i as int)
  {
    NarrowPart(i);
  }

  /** The tables on the way to a page are different frames. */
  lemma PathFrames(m: Memory, root: Frame, p: Page)
    requires Tree(m, root) && p.i4 != SELF
    ensures var t3 := E4(m, root, p).frame;
            var t2 := E3(m, root, p).frame;
            var t1 := E2(m, root, p).frame;
            && (Next(E4(m, root, p)).Some? ==> t3 != root)
            && (Next(E4(m, root, p)).Some? && Next(E3(m, root, p)).Some? ==> t2 != root && t2 != t3)
            && (Next(E4(m, root, p)).Some? && Next(E3(m, root, p)).Some? && Next(E2(m, root, p)).Some? ==>
                  t1 != root && t1 != t3 && t1 != t2)
    ensures Next(E4(m, root, p)) == Table(m, root, Pdpt(p.i4))
    ensures Next(E4(m, root, p)).Some? ==> Next(E3(m, root, p)) == Table(m, root, Pd(p.i4, p.i3))
    ensures Next(E4(m, root, p)).Some? && Next(E3(m, root, p)).Some? ==>
            Next(E2(m, root, p)) == Table(m, root, Pt(p.i4, p.i3, p.i2))
  {
    assert Table(m, root, Root) == Some(root);
    var t3, t2, t1 := Table(m, root, Pdpt(p.i4)), Table(m, root, Pd(p.i4, p.i3)), Table(m, root, Pt(p.i4, p.i3, p.i2));
  }

  lemma FreshRoot(m: Memory, root: Frame, free: seq<Frame>)
    requires Fresh(m, root, free)
    ensures 0 !in free && (free != [] ==> free[0] != root)
  {
    assert Table(m, root, Root) == Some(root);
    assert free != [] ==> free[0] in free;
  }

  // A free frame is none of the tables on the way to `p`.
  lemma FreshFrame(m: Memory, root: Frame, free: seq<Frame>, p: Page)
    requires Tree(m, root) && Fresh(m, root, free) && p.i4 != SELF
    ensures 0 !in free
    ensures var t3, t2 := E4(m, root, p).frame, E3(m, root, p).frame;
            free != [] ==>
              && free[0] != root
              && (Next(E4(m, root, p)).Some? ==> free[0] != t3)
              && (Next(E4(m, root, p)).Some? && Next(E3(m, root, p)).Some? ==> free[0] != t2)
  {
    PathFrames(m, root, p);
    assert Table(m, root, Root) == Some(root);
    assert free != [] ==> free[0] in free;
  }

  // The tables map_page has to add for `p`.
  function Missing(m: Memory, root: Frame, p: Page): nat {
    if !E4(m, root, p).present then 3
    else if !E3(m, root, p).present then 2
    else if !E2(m, root, p).present then 1
    else 0
  }

  // With CR0.WP set, the stores that add `flags` to a present PDPT or PD entry need write permission above it.
  predicate StoresAllowed(m: Memory, root: Frame, p: Page, flags: Flags) {
    flags.writable ||
    (E4(m, root, p).present && E3(m, root, p).present ==>
       E4(m, root, p).writable && (E2(m, root, p).present ==> E3(m, root, p).writable))
  }

  // How a call of map_page ends: with the page mapped, in a panic for want of frames, or in a page fault.
  datatype Outcome = Done | NoFrames | Fault

  function OutcomeOf(m: Memory, root: Frame, p: Page, flags: Flags, writeProtect: bool, frames: nat): Outcome {
    if writeProtect && !StoresAllowed(m, root, p, flags) then Fault
    else if frames < Missing(m, root, p) then NoFrames
    else Done
  }

  // No table comes or goes but those on the way to `p`.
  ghost predicate OtherTables(m: Memory, m': Memory, root: Frame, p: Page) {
    forall n | Proper(n) && !Leads(n, p) :: Table(m', root, n) == Table(m, root, n)
  }

  // Page `p` now has mapping `l`; every other page outside the recursive window resolves as before.
  ghost predicate MappedOnly(m: Memory, m': Memory, root: Frame, p: Page, l: Mapping) {
    forall q: Page | q.i4 != SELF :: Resolve(m', root, q) == if q == p then l else Resolve(m, root, q)
  }

  // What became of one upper-level entry: the flags of the call added, or a new table with these flags.
  predicate UpperEntry(e: Entry, e': Entry, f: Frame, flags: Flags) {
    e' == if e.present then Raise(e, flags) else Pointer(f, flags)
  }

  /** The upper-level entries end with the flags of the call and none of the write permission raised meanwhile. */
  ghost predicate UpperEntries(m: Memory, m': Memory, root: Frame, p: Page, free: seq<Frame>, flags: Flags)
    requires Missing(m, root, p) <= |free|
  {
    var k := Missing(m, root, p);
    && (if k < 3 then E4(m', root, p) == Raise(E4(m, root, p), flags) else E4(m', root, p) == Pointer(free[0], flags))
    && (if k < 2 then E3(m', root, p) == Raise(E3(m, root, p), flags)
      else E3(m', root, p) == Pointer(free[k - 2], flags))
    && (if k < 1 then E2(m', root, p) == Raise(E2(m, root, p), flags)
      else E2(m', root, p) == Pointer(free[k - 1], flags))
  }

  // The three levels of map_page: what each one leaves for the next.
  lemma PdptProvided(m: Memory, m': Memory, root: Frame, p: Page, free: seq<Frame>, free': seq<Frame>, flags: Flags)
    requires Tree(m, root) && Fresh(m, root, free) && p.i4 != SELF && SmallPath(m, root, p)
    requires Provided(m, m', Slot(root, p.i4), free, free', flags)
    ensures Tree(m', root) && Fresh(m', root, free') && SameView(m, m', root) && SmallPath(m', root, p)
    ensures OtherTables(m, m', root, p)
    ensures UpperEntry(E4(m, root, p), E4(m', root, p), if free == [] then 0 else free[0], flags)
    ensures if E4(m, root, p).present then E3(m', root, p) == E3(m, root, p)
        && (E3(m, root, p).present ==> E2(m', root, p) == E2(m, root, p))
            else E3(m', root, p) == ZERO
  {
    assert Table(m, root, Root) == Some(root);
    PathFrames(m, root, p);
    ProvidedKeepsTree(m, m', root, Root, p.i4, free, free', flags);
  }

  lemma PdProvided(m: Memory, m': Memory, root: Frame, p: Page, free: seq<Frame>, free': seq<Frame>, flags: Flags)
    requires Tree(m, root) && Fresh(m, root, free) && p.i4 != SELF && SmallPath(m, root, p) && E4(m, root, p).present
    requires Provided(m, m', Slot(E4(m, root, p).frame, p.i3), free, free', flags)
    ensures Tree(m', root) && Fresh(m', root, free') && SameView(m, m', root) && SmallPath(m', root, p)
    ensures OtherTables(m, m', root, p)
    ensures E4(m', root, p) == E4(m, root, p)
    ensures UpperEntry(E3(m, root, p), E3(m', root, p), if free == [] then 0 else free[0], flags)
    ensures E2(m', root, p) == if E3(m, root, p).present then E2(m, root, p) else ZERO
  {
    assert Table(m, root, Root) == Some(root);
    PathFrames(m, root, p);
    ProvidedKeepsTree(m, m', root, Pdpt(p.i4), p.i3, free, free', flags);
  }

  lemma PtProvided(m: Memory, m': Memory, root: Frame, p: Page, free: seq<Frame>, free': seq<Frame>, flags: Flags)
    requires Tree(m, root) && Fresh(m, root, free) && p.i4 != SELF && SmallPath(m, root, p)
    requires E4(m, root, p).present && E3(m, root, p).present
    requires Provided(m, m', Slot(E3(m, root, p).frame, p.i2), free, free', flags)
    ensures Tree(m', root) && Fresh(m', root, free') && SameView(m, m', root) && SmallPath(m', root, p)
    ensures OtherTables(m, m', root, p)
    ensures E4(m', root, p) == E4(m, root, p) && E3(m', root, p) == E3(m, root, p)
    ensures UpperEntry(E2(m, root, p), E2(m', root, p), if free == [] then 0 else free[0], flags)
  {
    assert Table(m, root, Root) == Some(root);
    PathFrames(m, root, p);
    ProvidedKeepsTree(m, m', root, Pd(p.i4, p.i3), p.i2, free, free', flags);
  }

  lemma ViewStays(m: Memory, root: Frame)
    ensures SameView(m, m, root)
  {}

  lemma SameViewTwice(m: Memory, m': Memory, m'': Memory, root: Frame)
    requires SameView(m, m', root) && SameView(m', m'', root)
    ensures SameView(m, m'', root)
  {}

  lemma OtherTablesTwice(m: Memory, m': Memory, m'': Memory, root: Frame, p: Page)
    requires OtherTables(m, m', root, p) && OtherTables(m', m'', root, p)
    ensures OtherTables(m, m'', root, p)
  {}

  /** Writing a page table entry keeps the tree and touches no other page. */
  lemma LeafWrite(m: Memory, m': Memory, root: Frame, free: seq<Frame>, p: Page)
    requires Tree(m, root) && Fresh(m, root, free) && p.i4 != SELF
    requires Next(E4(m, root, p)).Some? && Next(E3(m, root, p)).Some? && Next(E2(m, root, p)).Some?
    requires SameExcept(m, m', Slot(E2(m, root, p).frame, p.i1))
    ensures Tree(m', root) && Fresh(m', root, free) && OtherTables(m, m', root, p)
    ensures E4(m', root, p) == E4(m, root, p) && E3(m', root, p) == E3(m, root, p) && E2(m', root, p) == E2(m, root, p)
    ensures var e := E1(m', root, p);
            MappedOnly(m, m', root, p, if e.present then Leaf(Size4K, e) else Unmapped)
  {
    var n := Pt(p.i4, p.i3, p.i2);
    PathFrames(m, root, p);
    assert Table(m, root, Root) == Some(root);
    forall q | Proper(q) ensures Table(m', root, q) == Table(m, root, q) {
      WriteKeepsTables(m, m', root, n, p.i1, q);
    }
    forall q: Page | q.i4 != SELF && q != p ensures Resolve(m', root, q) == Resolve(m, root, q) {
      WriteKeepsPages(m, m', root, n, p.i1, q);
    }
  }

  // The tables that lead to a new table of page `p` are present, writable, and not that table itself.
  predicate ReachesPdpt(m: Memory, root: Frame, p: Page) {
    var e4 := E4(m, root, p);
    SelfMapped(m, root) && p.i4 != SELF && e4.present && e4.writable && e4.frame != root
  }

  predicate ReachesPd(m: Memory, root: Frame, p: Page) {
    var e4 := E4(m, root, p);
    var e3 := E3(m, root, p);
    && SelfMapped(m, root) && p.i4 != SELF
    && Next(e4).Some? && e4.writable && e3.present && e3.writable
    && e3.frame != root && e3.frame != e4.frame
  }

  predicate ReachesPt(m: Memory, root: Frame, p: Page) {
    var e4 := E4(m, root, p);
    var e3 := E3(m, root, p);
    var e2 := E2(m, root, p);
    && SelfMapped(m, root) && p.i4 != SELF
    && Next(e4).Some? && e4.writable && Next(e3).Some? && e3.writable && e2.present && e2.writable
    && e2.frame != root && e2.frame != e4.frame && e2.frame != e3.frame
  }

  ghost predicate Zeroed(m: Memory, m': Memory, f: Frame) {
    && (forall k: Index :: Read(m', Slot(f, k)) == ZERO)
    && (forall x: Slot | x.frame != f :: Read(m', x) == Read(m, x))
  }

  /**
   Which calls of map_page fault under CR0.WP: exactly those that find a PDPT or PD entry present below a
   read-only one and pass no READ_WRITE themselves. Every other store raises write permission first.
  */
  lemma StoresAllowedExactly(m: Memory, root: Frame, v: bv64, flags: Flags)
    requires SelfMapped(m, root) && PageOf(v).i4 != SELF && SmallPath(m, root, PageOf(v))
    requires E4(m, root, PageOf(v)).present && E3(m, root, PageOf(v)).present
    requires E4(m, root, PageOf(v)).frame != root && E3(m, root, PageOf(v)).frame != E4(m, root, PageOf(v)).frame
    requires E3(m, root, PageOf(v)).frame != root
    ensures var p := PageOf(v);
            var m1 := m[Slot(root, p.i4) := Raise(E4(m, root, p), flags)];
            var m2 := m1[Slot(E4(m, root, p).frame, p.i3) := Raise(E3(m, root, p), flags)];
            StoresAllowed(m, root, p, flags) <==>
            WalkWritable(m1, root, PageOf(PdpteAddr(v))) &&
            (E2(m, root, p).present ==> WalkWritable(m2, root, PageOf(PdeAddr(v))))
  {
    var p := PageOf(v);
    var m1 := m[Slot(root, p.i4) := Raise(E4(m, root, p), flags)];
    var m2 := m1[Slot(E4(m, root, p).frame, p.i3) := Raise(E3(m, root, p), flags)];
    PdpteSlot(m1, root, v);
    PdeSlot(m2, root, v);
    hide PageOf, PdpteAddr, PdeAddr;
  }

  /**
   When a second read-only mapping in the same 2 MiB is such a case: exactly when the first one had to add the page
   directory, or found a read-only entry on its way.
  */
  lemma SecondReadOnlyMappingFaults(m: Memory, m': Memory, root: Frame, p: Page, q: Page, free: seq<Frame>)
    requires Missing(m, root, p) <= |free| && UpperEntries(m, m', root, p, free, NO_FLAGS)
    requires q.i4 == p.i4 && q.i3 == p.i3 && q.i2 == p.i2
    ensures !StoresAllowed(m', root, q, NO_FLAGS) <==>
            Missing(m, root, p) >= 2 || !E4(m, root, p).writable || !E3(m, root, p).writable
  {}

  /** What MappedOnly means for the map from pages to frames: one page changes. */
  lemma MappedOnlyIsMapUpdate(m: Memory, m': Memory, root: Frame, p: Page, l: Mapping, q: Page)
    requires MappedOnly(m, m', root, p, l) && q.i4 != SELF
    ensures View(m', root, q) == if q == p then FrameIn(l, p) else View(m, root, q)
  {}

  /** map_page then unmap_page of the same page restores every mapping, if the page was not mapped before. */
  lemma MapThenUnmap(m: Memory, m1: Memory, m2: Memory, root: Frame, p: Page, l: Mapping)
    requires p.i4 != SELF && MappedOnly(m, m1, root, p, l) && MappedOnly(m1, m2, root, p, Unmapped)
    ensures SameView(m, m2, root) <==> Resolve(m, root, p) == Unmapped
  {
    assert Resolve(m2, root, p) == Unmapped;
  }

  /** The memory as one processor sees it: entries, CR3, CR0.WP and the frames the page allocator holds. */
  class AddressSpace {
    var mem: Memory
    var free: seq<Frame>
    const root: Frame
    const writeProtect: bool

    constructor (mem: Memory, root: Frame, free: seq<Frame>, writeProtect: bool)
      ensures this.mem == mem && this.root == root && this.free == free && this.writeProtect == writeProtect
    {
      this.mem, this.root, this.free, this.writeProtect := mem, root, free, writeProtect;
    }

    method Load(va: bv64) returns (e: Entry)
      requires WordSlot(mem, root, va).Some?
      ensures e == Read(mem, WordSlot(mem, root, va).value)
    {
      e := Read(mem, WordSlot(mem, root, va).value);
    }

    // A store faults unless the address is mapped and, under CR0.WP, writable at every level.
    method Store(va: bv64, e: Entry)
      requires WordSlot(mem, root, va).Some?
      requires writeProtect ==> WalkWritable(mem, root, PageOf(va))
      modifies `mem
      ensures mem == old(mem)[WordSlot(old(mem), root, va).value := e]
    {
      mem := mem[WordSlot(mem, root, va).value := e];
    }

    // A store that may be refused, which is a page fault.
    method TryStore(va: bv64, e: Entry) returns (stored: bool)
      requires WordSlot(mem, root, va).Some?
      modifies `mem
      ensures stored <==> (writeProtect ==> WalkWritable(old(mem), root, PageOf(va)))
      ensures mem == if stored then old(mem)[WordSlot(old(mem), root, va).value := e] else old(mem)
    {
      stored := writeProtect ==> WalkWritable(mem, root, PageOf(va));
      if stored {
        Store(va, e);
      }
    }

    // alloc_phys_pages(1): frame 0 means that nothing is left.
    method AllocPhysPage() returns (f: Frame)
      requires 0 !in free
      modifies `free
      ensures f == 0 <==> old(free) == []
      ensures f != 0 ==> f == old(free)[0] && free == old(free)[1..]
      ensures f == 0 ==> free == old(free)
    {
      if free == [] {
        return 0;
      }
      f, free := free[0], free[1..];
    }

    // `*PML4E_ADDR_OF(v)`, and the same for the other three macros: read and written.
    method LoadPml4e(v: bv64) returns (e: Entry)
      requires SelfMapped(mem, root)
      ensures e == E4(mem, root, PageOf(v))
    {
      Pml4eSlot(mem, root, v);
      e := Load(Pml4eAddr(v));
    }

    method StorePml4e(v: bv64, e: Entry)
      requires SelfMapped(mem, root)
      modifies `mem
      ensures mem == old(mem)[Slot(root, PageOf(v).i4) := e]
    {
      Pml4eSlot(mem, root, v);
      Store(Pml4eAddr(v), e);
    }

    method LoadPdpte(v: bv64) returns (e: Entry)
      requires SelfMapped(mem, root) && E4(mem, root, PageOf(v)).present
      ensures e == E3(mem, root, PageOf(v))
    {
      PdpteSlot(mem, root, v);
      e := Load(PdpteAddr(v));
    }

    method StorePdpte(v: bv64, e: Entry)
      requires SelfMapped(mem, root) && E4(mem, root, PageOf(v)).present
      requires writeProtect ==> E4(mem, root, PageOf(v)).writable
      modifies `mem
      ensures mem == old(mem)[Slot(E4(old(mem), root, PageOf(v)).frame, PageOf(v).i3) := e]
    {
      PdpteSlot(mem, root, v);
      Store(PdpteAddr(v), e);
    }

    method TryStorePdpte(v: bv64, e: Entry) returns (stored: bool)
      requires SelfMapped(mem, root) && E4(mem, root, PageOf(v)).present
      modifies `mem
      ensures stored <==> (writeProtect ==> E4(old(mem), root, PageOf(v)).writable)
      ensures mem == if stored then old(mem)[Slot(E4(old(mem), root, PageOf(v)).frame, PageOf(v).i3) := e] else old(mem)
    {
      PdpteSlot(mem, root, v);
      stored := TryStore(PdpteAddr(v), e);
    }

    method TryStorePde(v: bv64, e: Entry) returns (stored: bool)
      requires SelfMapped(mem, root) && Next(E4(mem, root, PageOf(v))).Some? && E3(mem, root, PageOf(v)).present
      modifies `mem
      ensures stored <==>
              (writeProtect ==> E4(old(mem), root, PageOf(v)).writable && E3(old(mem), root, PageOf(v)).writable)
      ensures mem == if stored then old(mem)[Slot(E3(old(mem), root, PageOf(v)).frame, PageOf(v).i2) := e] else old(mem)
    {
      PdeSlot(mem, root, v);
      stored := TryStore(PdeAddr(v), e);
    }

    method LoadPde(v: bv64) returns (e: Entry)
      requires SelfMapped(mem, root) && Next(E4(mem, root, PageOf(v))).Some? && E3(mem, root, PageOf(v)).present
      ensures e == E2(mem, root, PageOf(v))
    {
      PdeSlot(mem, root, v);
      e := Load(PdeAddr(v));
    }

    method StorePde(v: bv64, e: Entry)
      requires SelfMapped(mem, root) && Next(E4(mem, root, PageOf(v))).Some? && E3(mem, root, PageOf(v)).present
      requires writeProtect ==> E4(mem, root, PageOf(v)).writable && E3(mem, root, PageOf(v)).writable
      modifies `mem
      ensures mem == old(mem)[Slot(E3(old(mem), root, PageOf(v)).frame, PageOf(v).i2) := e]
    {
      PdeSlot(mem, root, v);
      Store(PdeAddr(v), e);
    }

    method StorePte(v: bv64, e: Entry)
      requires SelfMapped(mem, root) && Next(E4(mem, root, PageOf(v))).Some? && Next(E3(mem, root, PageOf(v))).Some?
      requires E2(mem, root, PageOf(v)).present
      requires writeProtect ==>
                 E4(mem, root, PageOf(v)).writable && E3(mem, root, PageOf(v)).writable
                   && E2(mem, root, PageOf(v)).writable
      modifies `mem
      ensures mem == old(mem)[Slot(E2(old(mem), root, PageOf(v)).frame, PageOf(v).i1) := e]
    {
      PteSlot(mem, root, v);
      Store(PteAddr(v), e);
    }

    // The three zeroing loops of map_page: a new table cleared through the entries that lead to it.
    method ZeroPdptEntry(v: bv64, i: bv64)
      requires i < 512 && ReachesPdpt(mem, root, PageOf(v))
      modifies `mem
      ensures 0 <= i as int < 512
      ensures mem == old(mem)[Slot(E4(old(mem), root, PageOf(v)).frame, i as int) := ZERO]
    {
      PdptParts(v, i);
      StorePdpte(PdptPart(v, i), ZERO);
    }

    method ZeroPdpt(v: bv64)
      requires ReachesPdpt(mem, root, PageOf(v))
      modifies `mem
      ensures Zeroed(old(mem), mem, E4(old(mem), root, PageOf(v)).frame)
    {
      hide PageOf;
      ghost var f := E4(mem, root, PageOf(v)).frame;
      var i: bv64 := 0;
      while i < 512
        invariant i <= 512
        invariant forall k: Index | k < i as int :: Read(mem, Slot(f, k)) == ZERO
        invariant forall x: Slot | x.frame != f :: Read(mem, x) == Read(old(mem), x)
        decreases 512 - i as int
      {
        NextPart(i);
        ZeroPdptEntry(v, i);
        i := i + 1;
      }
    }

    method ZeroPdEntry(v: bv64, i: bv64)
      requires i < 512 && ReachesPd(mem, root, PageOf(v))
      modifies `mem
      ensures 0 <= i as int < 512
      ensures mem == old(mem)[Slot(E3(old(mem), root, PageOf(v)).frame, i as int) := ZERO]
    {
      PdParts(v, i);
      StorePde(PdPart(v, i), ZERO);
    }

    method ZeroPd(v: bv64)
      requires ReachesPd(mem, root, PageOf(v))
      modifies `mem
      ensures Zeroed(old(mem), mem, E3(old(mem), root, PageOf(v)).frame)
    {
      hide PageOf;
      ghost var f := E3(mem, root, PageOf(v)).frame;
      var i: bv64 := 0;
      while i < 512
        invariant i <= 512
        invariant forall k: Index | k < i as int :: Read(mem, Slot(f, k)) == ZERO
        invariant forall x: Slot | x.frame != f :: Read(mem, x) == Read(old(mem), x)
        decreases 512 - i as int
      {
        NextPart(i);
        ZeroPdEntry(v, i);
        i := i + 1;
      }
    }

    method ZeroPtEntry(v: bv64, i: bv64)
      requires i < 512 && ReachesPt(mem, root, PageOf(v))
      modifies `mem
      ensures 0 <= i as int < 512
      ensures mem == old(mem)[Slot(E2(old(mem), root, PageOf(v)).frame, i as int) := ZERO]
    {
      PtParts(v, i);
      StorePte(PtPart(v, i), ZERO);
    }

    method ZeroPt(v: bv64)
      requires ReachesPt(mem, root, PageOf(v))
      modifies `mem
      ensures Zeroed(old(mem), mem, E2(old(mem), root, PageOf(v)).frame)
    {
      hide PageOf;
      ghost var f := E2(mem, root, PageOf(v)).frame;
      var i: bv64 := 0;
      while i < 512
        invariant i <= 512
        invariant forall k: Index | k < i as int :: Read(mem, Slot(f, k)) == ZERO
        invariant forall x: Slot | x.frame != f :: Read(mem, x) == Read(old(mem), x)
        decreases 512 - i as int
      {
        NextPart(i);
        ZeroPtEntry(v, i);
        i := i + 1;
      }
    }

    // The PML4 entry of map_page.
    method ProvidePdpt(v: bv64, flags: Flags) returns (ok: bool)
      requires Tree(mem, root) && Fresh(mem, root, free) && PageOf(v).i4 != SELF
      modifies `mem, `free
      ensures ok <==> Read(old(mem), Slot(root, PageOf(v).i4)).present || old(free) != []
      ensures ok ==> Provided(old(mem), mem, Slot(root, PageOf(v).i4), old(free), free, flags)
      ensures !ok ==> mem == old(mem) && free == old(free)
    {
      hide PageOf, Fresh, Distinct, Table;
      FreshRoot(mem, root, free);
      var e4 := LoadPml4e(v);
      if e4.present {
        StorePml4e(v, Raise(e4, flags));
      } else {
        var f := AllocPhysPage();
        if f == 0 {
          return false;
        }
        FillPdpt(v, f, flags);
      }
      ok := true;
    }

    // A new PDPT, zeroed through its own entry.
    method FillPdpt(v: bv64, f: Frame, flags: Flags)
      requires SelfMapped(mem, root) && PageOf(v).i4 != SELF && f != root
      modifies `mem
      ensures var s := Slot(root, PageOf(v).i4);
              && Read(mem, s) == Pointer(f, flags)
              && (forall k: Index :: Read(mem, Slot(f, k)) == ZERO)
              && (forall x: Slot | x != s && x.frame != f :: Read(mem, x) == Read(old(mem), x))
    {
      hide PageOf;
      StorePml4e(v, Pointer(f, RW_FLAG));
      ZeroPdpt(v);
      StorePml4e(v, Pointer(f, flags));
    }

    // The PDPT entry of map_page.
    method ProvidePd(v: bv64, flags: Flags) returns (r: Outcome)
      requires Tree(mem, root) && Fresh(mem, root, free) && PageOf(v).i4 != SELF
      requires Next(E4(mem, root, PageOf(v))).Some?
      modifies `mem, `free
      ensures r.Fault? <==>
                writeProtect && E3(old(mem), root, PageOf(v)).present && !E4(old(mem), root, PageOf(v)).writable
      ensures r.NoFrames? <==> !E3(old(mem), root, PageOf(v)).present && old(free) == []
      ensures !r.Done? ==> mem == old(mem) && free == old(free)
      ensures r.Done? ==> Provided(old(mem), mem, Slot(E4(old(mem), root, PageOf(v)).frame, PageOf(v).i3), old(free),
          free, flags)
    {
      hide PageOf, Fresh, Distinct;
      PathFrames(mem, root, PageOf(v));
      FreshFrame(mem, root, free, PageOf(v));
      var e3 := LoadPdpte(v);
      if e3.present {
        var stored := TryStorePdpte(v, Raise(e3, flags));
        return if stored then Done else Fault;
      }
      var f := AllocPhysPage();
      if f == 0 {
        return NoFrames;
      }
      FillPd(v, f, flags);
      r := Done;
    }

    // A new page directory, zeroed through its own entry, under a PML4 entry that is writable meanwhile.
    method FillPd(v: bv64, f: Frame, flags: Flags)
      requires SelfMapped(mem, root) && PageOf(v).i4 != SELF && Next(E4(mem, root, PageOf(v))).Some?
      requires var t3 := E4(mem, root, PageOf(v)).frame; f != root && f != t3 && root != t3
      modifies `mem
      ensures var s := Slot(E4(old(mem), root, PageOf(v)).frame, PageOf(v).i3);
              && Read(mem, s) == Pointer(f, flags)
              && (forall k: Index :: Read(mem, Slot(f, k)) == ZERO)
              && (forall x: Slot | x != s && x.frame != f :: Read(mem, x) == Read(old(mem), x))
    {
      hide PageOf;
      ghost var t3 := E4(mem, root, PageOf(v)).frame;
      var pml4e := LoadPml4e(v);
      StorePml4e(v, RaiseWrite(pml4e));
      StorePdpte(v, Pointer(f, RW_FLAG));
      assert E4(mem, root, PageOf(v)) == RaiseWrite(pml4e);
      ZeroPd(v);
      assert E4(mem, root, PageOf(v)) == RaiseWrite(pml4e);
      StorePdpte(v, Pointer(f, flags));
      StorePml4e(v, pml4e);
    }

    // `*PML4E |= RW; *PDPTE |= RW`, keeping the old values.
    method RaisePath(v: bv64) returns (pml4e: Entry, pdpte: Entry)
      requires SelfMapped(mem, root) && PageOf(v).i4 != SELF && E4(mem, root, PageOf(v)).frame != root
      requires Next(E4(mem, root, PageOf(v))).Some? && Next(E3(mem, root, PageOf(v))).Some?
      modifies `mem
      ensures pml4e == E4(old(mem), root, PageOf(v)) && pdpte == E3(old(mem), root, PageOf(v))
      ensures mem == old(mem)[Slot(root, PageOf(v).i4) := RaiseWrite(pml4e)]
                             [Slot(pml4e.frame, PageOf(v).i3) := RaiseWrite(pdpte)]
    {
      hide PageOf;
      pml4e := LoadPml4e(v);
      StorePml4e(v, RaiseWrite(pml4e));
      pdpte := LoadPdpte(v);
      StorePdpte(v, RaiseWrite(pdpte));
    }

    // `*PDPTE = pdpte_val; *PML4E = pml4e_val`
    method RestorePath(v: bv64, pml4e: Entry, pdpte: Entry)
      requires SelfMapped(mem, root) && PageOf(v).i4 != SELF && pml4e.frame != root
      requires E4(mem, root, PageOf(v)) == RaiseWrite(pml4e) && pml4e.present && !pml4e.large
      modifies `mem
      ensures mem == old(mem)[Slot(pml4e.frame, PageOf(v).i3) := pdpte][Slot(root, PageOf(v).i4) := pml4e]
    {
      hide PageOf;
      StorePdpte(v, pdpte);
      StorePml4e(v, pml4e);
    }

    // The PD entry of map_page.
    method ProvidePt(v: bv64, flags: Flags) returns (r: Outcome)
      requires Tree(mem, root) && Fresh(mem, root, free) && PageOf(v).i4 != SELF
      requires Next(E4(mem, root, PageOf(v))).Some? && Next(E3(mem, root, PageOf(v))).Some?
      modifies `mem, `free
      ensures r.Fault? <==> writeProtect && E2(old(mem), root, PageOf(v)).present
                            && !(E4(old(mem), root, PageOf(v)).writable && E3(old(mem), root, PageOf(v)).writable)
      ensures r.NoFrames? <==> !E2(old(mem), root, PageOf(v)).present && old(free) == []
      ensures !r.Done? ==> mem == old(mem) && free == old(free)
      ensures r.Done? ==> Provided(old(mem), mem, Slot(E3(old(mem), root, PageOf(v)).frame, PageOf(v).i2), old(free),
          free, flags)
    {
      hide PageOf, Fresh, Distinct;
      PathFrames(mem, root, PageOf(v));
      FreshFrame(mem, root, free, PageOf(v));
      var e2 := LoadPde(v);
      if e2.present {
        var stored := TryStorePde(v, Raise(e2, flags));
        return if stored then Done else Fault;
      }
      var f := AllocPhysPage();
      if f == 0 {
        return NoFrames;
      }
      AddPt(v, f, flags);
      r := Done;
    }

    // A new page table under two entries that are writable meanwhile.
    method AddPt(v: bv64, f: Frame, flags: Flags)
      requires SelfMapped(mem, root) && PageOf(v).i4 != SELF
      requires Next(E4(mem, root, PageOf(v))).Some? && Next(E3(mem, root, PageOf(v))).Some?
      requires var t3, t2 := E4(mem, root, PageOf(v)).frame, E3(mem, root, PageOf(v)).frame;
               f != root && f != t3 && f != t2 && root != t3 && root != t2 && t3 != t2
      modifies `mem
      ensures var s := Slot(E3(old(mem), root, PageOf(v)).frame, PageOf(v).i2);
              && Read(mem, s) == Pointer(f, flags)
              && (forall k: Index :: Read(mem, Slot(f, k)) == ZERO)
              && (forall x: Slot | x != s && x.frame != f :: Read(mem, x) == Read(old(mem), x))
    {
      hide PageOf;
      var pml4e, pdpte := RaisePath(v);
      FillPt(v, f, flags);
      RestorePath(v, pml4e, pdpte);
    }

    // A new page table, zeroed through its own entry.
    method FillPt(v: bv64, f: Frame, flags: Flags)
      requires SelfMapped(mem, root) && PageOf(v).i4 != SELF
      requires Next(E4(mem, root, PageOf(v))).Some? && E4(mem, root, PageOf(v)).writable
      requires Next(E3(mem, root, PageOf(v))).Some? && E3(mem, root, PageOf(v)).writable
      requires var t3, t2 := E4(mem, root, PageOf(v)).frame, E3(mem, root, PageOf(v)).frame;
               f != root && f != t3 && f != t2 && root != t3 && root != t2 && t3 != t2
      modifies `mem
      ensures var s := Slot(E3(old(mem), root, PageOf(v)).frame, PageOf(v).i2);
              && Read(mem, s) == Pointer(f, flags)
              && (forall k: Index :: Read(mem, Slot(f, k)) == ZERO)
              && (forall x: Slot | x != s && x.frame != f :: Read(mem, x) == Read(old(mem), x))
    {
      hide PageOf;
      ghost var t3, t2 := E4(mem, root, PageOf(v)).frame, E3(mem, root, PageOf(v)).frame;
      StorePde(v, RaiseWrite(Pointer(f, flags)));
      assert mem == old(mem)[Slot(t2, PageOf(v).i2) := RaiseWrite(Pointer(f, flags))];
      assert E4(mem, root, PageOf(v)) == E4(old(mem), root, PageOf(v));
      assert E3(mem, root, PageOf(v)) == E3(old(mem), root, PageOf(v));
      ZeroPt(v);
      assert E4(mem, root, PageOf(v)) == E4(old(mem), root, PageOf(v));
      assert E3(mem, root, PageOf(v)) == E3(old(mem), root, PageOf(v));
      StorePde(v, Pointer(f, flags));
    }

    // The closing part of map_page, and all of unmap_page: one write to the page table entry.
    method WritePte(v: bv64, e: Entry)
      requires Tree(mem, root) && PageOf(v).i4 != SELF
      requires Next(E4(mem, root, PageOf(v))).Some? && Next(E3(mem, root, PageOf(v))).Some?
          && Next(E2(mem, root, PageOf(v))).Some?
      modifies `mem
      ensures SameExcept(old(mem), mem, Slot(E2(old(mem), root, PageOf(v)).frame, PageOf(v).i1))
      ensures E1(mem, root, PageOf(v)) == e
    {
      hide PageOf;
      PathFrames(mem, root, PageOf(v));
      var pml4e, pdpte := RaisePath(v);
      var pde := LoadPde(v);
      StorePde(v, RaiseWrite(pde));
      StorePte(v, e);
      StorePde(v, pde);
      RestorePath(v, pml4e, pdpte);
    }

    // The three tables above the page, map_page's first part.
    method ProvideTables(v: bv64, flags: Flags) returns (r: Outcome)
      requires Tree(mem, root) && Fresh(mem, root, free)
      requires PageOf(v).i4 != SELF && SmallPath(mem, root, PageOf(v))
      modifies `mem, `free
      ensures r == OutcomeOf(old(mem), root, PageOf(v), flags, writeProtect, |old(free)|)
      ensures SameView(old(mem), mem, root)
      ensures r.Done? ==> Tree(mem, root) && Fresh(mem, root, free)
      ensures r.Done? ==> SmallPath(mem, root, PageOf(v)) && E4(mem, root, PageOf(v)).present
                          && E3(mem, root, PageOf(v)).present && E2(mem, root, PageOf(v)).present
      ensures r.Done? ==> free == old(free)[Missing(old(mem), root, PageOf(v))..]
      ensures r.Done? ==> UpperEntries(old(mem), mem, root, PageOf(v), old(free), flags)
      ensures r.Done? ==> OtherTables(old(mem), mem, root, PageOf(v))
    {
      hide PageOf, Tree, Fresh, SameView, OtherTables;
      ghost var p := PageOf(v);
      ghost var m0 := mem;
      ViewStays(m0, root);
      var ok := ProvidePdpt(v, flags);
      if !ok { return NoFrames; }
      ghost var m1, free1 := mem, free;
      PdptProvided(m0, m1, root, p, old(free), free1, flags);
      r := ProvidePd(v, flags);
      if !r.Done? { return; }
      ghost var m2, free2 := mem, free;
      PdProvided(m1, m2, root, p, free1, free2, flags);
      SameViewTwice(m0, m1, m2, root);
      OtherTablesTwice(m0, m1, m2, root, p);
      r := ProvidePt(v, flags);
      if !r.Done? { return; }
      PtProvided(m2, mem, root, p, free2, free, flags);
      SameViewTwice(m0, m2, mem, root);
      OtherTablesTwice(m0, m2, mem, root, p);
    }

    /** map_page, without its locks: page by page the update of a finite map, if it neither faults nor panics. */
    method MapPage(v: bv64, paddr: Frame, flags: Flags) returns (r: Outcome)
      requires Tree(mem, root) && Fresh(mem, root, free)
      requires PageOf(v).i4 != SELF && SmallPath(mem, root, PageOf(v))
      modifies `mem, `free
      ensures r == OutcomeOf(old(mem), root, PageOf(v), flags, writeProtect, |old(free)|)
      ensures !r.Done? ==> SameView(old(mem), mem, root)
      ensures r.Done? ==> Tree(mem, root) && Fresh(mem, root, free) && SmallPath(mem, root, PageOf(v))
      ensures r.Done? ==> free == old(free)[Missing(old(mem), root, PageOf(v))..]
      ensures r.Done? ==> MappedOnly(old(mem), mem, root, PageOf(v), Leaf(Size4K, Pointer(paddr, flags)))
      ensures r.Done? ==> UpperEntries(old(mem), mem, root, PageOf(v), old(free), flags)
      ensures r.Done? ==> OtherTables(old(mem), mem, root, PageOf(v))
    {
      hide PageOf, OutcomeOf;
      r := ProvideTables(v, flags);
      if !r.Done? { return; }
      ghost var m := mem;
      WritePte(v, Pointer(paddr, flags));
      LeafWrite(m, mem, root, free, PageOf(v));
      OtherTablesTwice(old(mem), m, mem, root, PageOf(v));
    }

    /** unmap_page, without its locks: removes one page and leaves every upper-level entry as it was. */
    method UnmapPage(v: bv64)
      requires Tree(mem, root) && Fresh(mem, root, free) && PageOf(v).i4 != SELF
      requires Next(E4(mem, root, PageOf(v))).Some? && Next(E3(mem, root, PageOf(v))).Some?
          && Next(E2(mem, root, PageOf(v))).Some?
      modifies `mem
      ensures Tree(mem, root) && Fresh(mem, root, free)
      ensures MappedOnly(old(mem), mem, root, PageOf(v), Unmapped)
      ensures SameExcept(old(mem), mem, Slot(E2(old(mem), root, PageOf(v)).frame, PageOf(v).i1))
    {
      hide PageOf;
      WritePte(v, ZERO);
      LeafWrite(old(mem), mem, root, free, PageOf(v));
    }
  }
}
