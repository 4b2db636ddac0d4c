/**
 How the kernel reaches its own page tables: PML4[511] points at the PML4 itself, so that four address
 macros name the entries of the four levels. A plain access to such an address walks the tables like any
 other and ends on the entry itself.
 */
module RecursiveWindow {
  import opened Wrappers
  import opened PageTables

  function PageOf(v: bv64): Page {
    Page(((v >> 39) & 511) as bv9 as int, ((v >> 30) & 511) as bv9 as int,
         ((v >> 21) & 511) as bv9 as int, ((v >> 12) & 511) as bv9 as int)
  }

  // Which of the 512 words of its page an address falls in.
  function WordOf(v: bv64): Index { ((v >> 3) & 511) as bv9 as int }

  function Pml4eAddr(v: bv64): bv64 { 0xFFFF_FFFF_FFFF_F000 | ((v & 0xFF80_0000_0000) >> 36) }
  function PdpteAddr(v: bv64): bv64 { 0xFFFF_FFFF_FFE0_0000 | ((v & 0xFFFF_C000_0000) >> 27) }
  function PdeAddr(v: bv64): bv64 { 0xFFFF_FFFF_C000_0000 | ((v & 0xFFFF_FFE0_0000) >> 18) }
  function PteAddr(v: bv64): bv64 { 0xFFFF_FF80_0000_0000 | ((v & 0xFFFF_FFFF_F000) >> 9) }

  // The word a load or store of virtual address `va` touches.
  function WordSlot(m: Memory, root: Frame, va: bv64): Option<Slot> {
    match View(m, root, PageOf(va))
    case None => None
    case Some(f) => Some(Slot(f, WordOf(va)))
  }

  // Every entry the walk of `p` reads allows writing (section 4.6.1: what CR0.WP asks of the supervisor).
  function WalkWritable(m: Memory, root: Frame, p: Page): bool {
    var e4 := Read(m, Slot(root, p.i4));
    var e3 := Read(m, Slot(e4.frame, p.i3));
    var e2 := Read(m, Slot(e3.frame, p.i2));
    var e1 := Read(m, Slot(e2.frame, p.i1));
    e4.writable && e3.writable && (e3.large || (e2.writable && (e2.large || e1.writable)))
  }

  // ----- the entries on the way to page `p` -----

  function E4(m: Memory, root: Frame, p: Page): Entry { Read(m, Slot(root, p.i4)) }
  function E3(m: Memory, root: Frame, p: Page): Entry { Read(m, Slot(E4(m, root, p).frame, p.i3)) }
  function E2(m: Memory, root: Frame, p: Page): Entry { Read(m, Slot(E3(m, root, p).frame, p.i2)) }
  function E1(m: Memory, root: Frame, p: Page): Entry { Read(m, Slot(E2(m, root, p).frame, p.i1)) }

  // ----- the four macros -----

  // The pages and words the four addresses fall in.
  lemma Pml4ePage(v: bv64)
    ensures PageOf(Pml4eAddr(v)) == Page(SELF, SELF, SELF, SELF) && WordOf(Pml4eAddr(v)) == PageOf(v).i4
  {}

  lemma PdptePage(v: bv64)
    ensures PageOf(PdpteAddr(v)) == Page(SELF, SELF, SELF, PageOf(v).i4) && WordOf(PdpteAddr(v)) == PageOf(v).i3
  {}

  lemma PdePage(v: bv64)
    ensures PageOf(PdeAddr(v)) == Page(SELF, SELF, PageOf(v).i4, PageOf(v).i3) && WordOf(PdeAddr(v)) == PageOf(v).i2
  {}

  lemma PtePage(v: bv64)
    ensures PageOf(PteAddr(v)) == Page(SELF, PageOf(v).i4, PageOf(v).i3, PageOf(v).i2)
    ensures WordOf(PteAddr(v)) == PageOf(v).i1
  {}

  // The entry of table `n` that the walk of `p` reads.
  function IndexAt(n: Node, p: Page): Index {
    match n
    case Root => p.i4
    case Pdpt(_) => p.i3
    case Pd(_, _) => p.i2
    case Pt(_, _, _) => p.i1
  }

  // The address the kernel uses for the entry of table `n` on the way to `v`.
  function EntryAddr(n: Node, v: bv64): bv64 {
    match n
    case Root => Pml4eAddr(v)
    case Pdpt(_) => PdpteAddr(v)
    case Pd(_, _) => PdeAddr(v)
    case Pt(_, _, _) => PteAddr(v)
  }

  // Table `n` is on the way to page `p`.
  predicate Leads(n: Node, p: Page) { Through(n, IndexAt(n, p), p) }

  /**
   Recursive-slot addressing: in a tree, walking to the macro's address of an entry ends on that entry, for
   every table on the way to any page outside the window.
  */
  lemma EntryAddrReachesEntry(m: Memory, root: Frame, n: Node, v: bv64)
    requires SelfMapped(m, root) && PageOf(v).i4 != SELF
    requires Leads(n, PageOf(v)) && Table(m, root, n).Some?
    ensures WordSlot(m, root, EntryAddr(n, v)) == Some(Slot(Table(m, root, n).value, IndexAt(n, PageOf(v))))
  {
    hide PageOf, WordOf, Pml4eAddr, PdpteAddr, PdeAddr, PteAddr;
    match n
    case Root => Pml4ePage(v);
    case Pdpt(_) => PdptePage(v);
    case Pd(_, _) => PdePage(v);
    case Pt(_, _, _) => PtePage(v);
  }

  /** Distinct entries have distinct addresses. */
  lemma EntryAddrsDistinct(m: Memory, root: Frame, n: Node, u: bv64, n': Node, v: bv64)
    requires Tree(m, root) && PageOf(u).i4 != SELF && PageOf(v).i4 != SELF
    requires Leads(n, PageOf(u)) && Table(m, root, n).Some?
    requires Leads(n', PageOf(v)) && Table(m, root, n').Some?
    requires EntryAddr(n, u) == EntryAddr(n', v)
    ensures n == n' && IndexAt(n, PageOf(u)) == IndexAt(n', PageOf(v))
  {
    hide PageOf, WordSlot, EntryAddr;
    EntryAddrReachesEntry(m, root, n, u);
    EntryAddrReachesEntry(m, root, n', v);
    assert Proper(n) && Proper(n');
  }

  lemma Pml4eSlot(m: Memory, root: Frame, v: bv64)
    requires SelfMapped(m, root)
    ensures WordSlot(m, root, Pml4eAddr(v)) == Some(Slot(root, PageOf(v).i4))
    ensures WalkWritable(m, root, PageOf(Pml4eAddr(v)))
  {
    hide PageOf, WordOf, Pml4eAddr;
    Pml4ePage(v);
  }

  lemma PdpteSlot(m: Memory, root: Frame, v: bv64)
    requires SelfMapped(m, root) && E4(m, root, PageOf(v)).present
    ensures WordSlot(m, root, PdpteAddr(v)) == Some(Slot(E4(m, root, PageOf(v)).frame, PageOf(v).i3))
    ensures WalkWritable(m, root, PageOf(PdpteAddr(v))) <==> E4(m, root, PageOf(v)).writable
  {
    hide PageOf, WordOf, PdpteAddr;
    PdptePage(v);
  }

  lemma PdeSlot(m: Memory, root: Frame, v: bv64)
    requires SelfMapped(m, root) && Next(E4(m, root, PageOf(v))).Some? && E3(m, root, PageOf(v)).present
    ensures WordSlot(m, root, PdeAddr(v)) == Some(Slot(E3(m, root, PageOf(v)).frame, PageOf(v).i2))
    ensures WalkWritable(m, root, PageOf(PdeAddr(v))) <==>
            E4(m, root, PageOf(v)).writable && E3(m, root, PageOf(v)).writable
  {
    hide PageOf, WordOf, PdeAddr;
    PdePage(v);
  }

  lemma PteSlot(m: Memory, root: Frame, v: bv64)
    requires SelfMapped(m, root) && Next(E4(m, root, PageOf(v))).Some? && Next(E3(m, root, PageOf(v))).Some?
    requires E2(m, root, PageOf(v)).present
    ensures WordSlot(m, root, PteAddr(v)) == Some(Slot(E2(m, root, PageOf(v)).frame, PageOf(v).i1))
    ensures WalkWritable(m, root, PageOf(PteAddr(v))) <==>
            E4(m, root, PageOf(v)).writable && E3(m, root, PageOf(v)).writable && E2(m, root, PageOf(v)).writable
  {
    hide PageOf, WordOf, PteAddr;
    PtePage(v);
  }
}
