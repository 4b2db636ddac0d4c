/**
 The x86-64 page tables as the processor walks them (section 4.5 of the Intel SDM, volume 3A): the entries
 in physical memory, the four-level walk, and the shape every part of the kernel keeps: a tree of distinct
 tables, apart from the last root entry, which points back at the root.
 */
module PageTables {
  import opened Wrappers

  type Index = i: int | 0 <= i < 512
  // A 4 KiB frame of physical memory, by number: bits 12..47 of its address.
  type Frame = f: int | 0 <= f < 0x10_0000_0000

  // A table entry, field by field: bit 0, bit 1, bit 7, bits 12..47, and the other 25 bits in one piece.
  datatype Entry = Entry(present: bool, writable: bool, large: bool, frame: Frame, rest: bv25)

  // The bits callers pass in a `flags` argument: any but the large-page bit and the address.
  datatype Flags = Flags(writable: bool, rest: bv25)

  // Bits 48 to 63, the last of `rest`.
  predicate HighBitsClear(e: Entry) { e.rest >> 9 == 0 }

  const ZERO := Entry(false, false, false, 0, 0)
  const SELF: Index := 511

  // One 8-byte entry of a frame. Entries nobody wrote read as zero.
  datatype Slot = Slot(frame: Frame, index: Index)
  type Memory = map<Slot, Entry>

  function Read(m: Memory, s: Slot): Entry {
    if s in m then m[s] else ZERO
  }

  // `e |= flags`
  function Raise(e: Entry, flags: Flags): Entry {
    e.(writable := e.writable || flags.writable, rest := e.rest | flags.rest)
  }

  // `frame | PRESENT | flags`
  function Pointer(f: Frame, flags: Flags): Entry {
    Entry(true, flags.writable, false, f, flags.rest)
  }

  // `e |= READ_WRITE`
  function RaiseWrite(e: Entry): Entry { e.(writable := true) }

  // A 4 KiB virtual page, named by the four indices the processor cuts out of an address.
  datatype Page = Page(i4: Index, i3: Index, i2: Index, i1: Index)

  // The table an upper-level entry points to.
  function Next(e: Entry): Option<Frame> {
    if e.present && !e.large then Some(e.frame) else None
  }

  // ----- the walk -----

  datatype Size = Size4K | Size2M | Size1G
  datatype Mapping = Unmapped | Leaf(size: Size, entry: Entry)

  function Resolve1(m: Memory, t1: Frame, p: Page): Mapping {
    var e1 := Read(m, Slot(t1, p.i1));
    if e1.present then Leaf(Size4K, e1) else Unmapped
  }

  function Resolve2(m: Memory, t2: Frame, p: Page): Mapping {
    var e2 := Read(m, Slot(t2, p.i2));
    if !e2.present then Unmapped
    else if e2.large then Leaf(Size2M, e2)
    else Resolve1(m, e2.frame, p)
  }

  function Resolve3(m: Memory, t3: Frame, p: Page): Mapping {
    var e3 := Read(m, Slot(t3, p.i3));
    if !e3.present then Unmapped
    else if e3.large then Leaf(Size1G, e3)
    else Resolve2(m, e3.frame, p)
  }

  /** The leaf entry that maps page `p`; the large-page bit is reserved in a root entry. */
  function Resolve(m: Memory, root: Frame, p: Page): Mapping {
    var e4 := Read(m, Slot(root, p.i4));
    if Next(e4).None? then Unmapped else Resolve3(m, e4.frame, p)
  }

  /** The frame behind page `p` when `l` maps it: large pages cover 512 or 512*512 consecutive frames. */
  function FrameIn(l: Mapping, p: Page): Option<Frame> {
    match l
    case Unmapped => None
    case Leaf(Size4K, e) => Some(e.frame)
    case Leaf(Size2M, e) => Some(e.frame - e.frame % 0x200 + p.i1)
    case Leaf(Size1G, e) => Some(e.frame - e.frame % 0x4_0000 + 0x200 * p.i2 + p.i1)
  }

  /** The finite map from pages to frames that the tables stand for. */
  function View(m: Memory, root: Frame, p: Page): Option<Frame> {
    FrameIn(Resolve(m, root, p), p)
  }

  // ----- tables and the tree they form -----

  // A table, named by the indices that lead to it.
  datatype Node = Root | Pdpt(i4: Index) | Pd(i4: Index, i3: Index) | Pt(i4: Index, i3: Index, i2: Index)

  function Table(m: Memory, root: Frame, n: Node): Option<Frame> {
    match n
    case Root => Some(root)
    case Pdpt(a) => Next(Read(m, Slot(root, a)))
    case Pd(a, b) =>
      var t3 := Next(Read(m, Slot(root, a)));
      if t3.None? then None else Next(Read(m, Slot(t3.value, b)))
    case Pt(a, b, c) =>
      var t3 := Next(Read(m, Slot(root, a)));
      if t3.None? then None else
      var t2 := Next(Read(m, Slot(t3.value, b)));
      if t2.None? then None else Next(Read(m, Slot(t2.value, c)))
  }

  // The nodes outside the recursive window.
  predicate Proper(n: Node) { n.Root? || n.i4 != SELF }

  // The self-map of the root: its last entry is a writable pointer to itself.
  predicate SelfMapped(m: Memory, root: Frame) {
    var e := Read(m, Slot(root, SELF));
    Next(e) == Some(root) && e.writable
  }

  ghost predicate Distinct(m: Memory, root: Frame) {
    forall a, b | Proper(a) && Proper(b) && Table(m, root, a).Some? && Table(m, root, a) == Table(m, root, b) :: a == b
  }

  ghost predicate Tree(m: Memory, root: Frame) {
    SelfMapped(m, root) && Distinct(m, root)
  }

  // `q` hangs below entry `j` of table `n`.
  predicate Below(n: Node, j: Index, q: Node) {
    match n
    case Root => !q.Root? && q.i4 == j
    case Pdpt(a) => (q.Pd? || q.Pt?) && q.i4 == a && q.i3 == j
    case Pd(a, b) => q.Pt? && q.i4 == a && q.i3 == b && q.i2 == j
    case Pt(_, _, _) => false
  }

  // The walk of page `p` reads entry `j` of table `n`, if it gets that far.
  predicate Through(n: Node, j: Index, p: Page) {
    match n
    case Root => p.i4 == j
    case Pdpt(a) => p.i4 == a && p.i3 == j
    case Pd(a, b) => p.i4 == a && p.i3 == b && p.i2 == j
    case Pt(a, b, c) => p.i4 == a && p.i3 == b && p.i2 == c && p.i1 == j
  }

  // The table that entry `j` of `n` may point to.
  function Child(n: Node, j: Index): Node
    requires !n.Pt?
  {
    match n
    case Root => Pdpt(j)
    case Pdpt(a) => Pd(a, j)
    case Pd(a, b) => Pt(a, b, j)
  }

  ghost predicate SameExcept(m: Memory, m': Memory, s: Slot) {
    forall x: Slot | x != s :: Read(m', x) == Read(m, x)
  }

  // Every page outside the recursive window resolves alike.
  ghost predicate SameView(m: Memory, m': Memory, root: Frame) {
    forall p: Page | p.i4 != SELF :: Resolve(m', root, p) == Resolve(m, root, p)
  }

  // ----- what one write to a table does -----

  /** In a tree a table slot belongs to one table, so writing it leaves every table not below it alone. */
  lemma WriteKeepsTables(m: Memory, m': Memory, root: Frame, n: Node, j: Index, q: Node)
    requires Distinct(m, root) && Proper(n) && Table(m, root, n).Some?
    requires SameExcept(m, m', Slot(Table(m, root, n).value, j))
    requires Proper(q) && !Below(n, j, q)
    ensures Table(m', root, q) == Table(m, root, q)
  {
    assert Table(m, root, Root) == Some(root);
    if !q.Root? {
      assert Table(m, root, Pdpt(q.i4)) == Table(m', root, Pdpt(q.i4));
    }
    if q.Pt? {
      assert Table(m, root, Pd(q.i4, q.i3)) == Table(m', root, Pd(q.i4, q.i3));
    }
  }

  /** ... and leaves the mapping of every page whose walk does not read it alone. */
  lemma WriteKeepsPages(m: Memory, m': Memory, root: Frame, n: Node, j: Index, p: Page)
    requires Distinct(m, root) && Proper(n) && Table(m, root, n).Some?
    requires SameExcept(m, m', Slot(Table(m, root, n).value, j))
    requires p.i4 != SELF && !Through(n, j, p)
    ensures Resolve(m', root, p) == Resolve(m, root, p)
  {
    assert Table(m, root, Root) == Some(root);
    var t3 := Table(m, root, Pdpt(p.i4));
    if t3.Some? {
      var t2 := Table(m, root, Pd(p.i4, p.i3));
      if t2.Some? {
        var t1 := Table(m, root, Pt(p.i4, p.i3, p.i2));
      }
    }
  }
}
