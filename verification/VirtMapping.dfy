/**
 create_virt_mapping and delete_virt_mapping. Both loops run over one page more than the range has; this says what
 that page is, and when it matters. Here the tables are a map from page addresses to frame addresses; the last part
 shows that runs of map_page and unmap_page over the pages of a loop change the tables as the loop changes that map.
 */
module VirtMapping {
  import opened Wrappers
  import opened Pages
  import opened Mmap
  import opened VirtMap
  import PageTables
  import KernelPaging

  function PageBase(a: nat): nat { a - a % PAGE }

  // The pages that `size` bytes at `a` touch.
  function PageCount(a: nat, size: nat): nat
    requires size > 0
  {
    LastPage(a, size);
    (PageBase(a + size - 1) - PageBase(a)) / PAGE + 1
  }

  lemma LastPage(a: nat, size: nat)
    requires size > 0
    ensures PageBase(a) <= PageBase(a + size - 1)
  {}

  type Frames = map<nat, nat>

  // `n` pages from `v` on mapped to those from `p` on.
  function WithPages(f: Frames, v: nat, p: nat, n: nat): Frames {
    if n == 0 then f else WithPages(f, v, p, n - 1)[v + PAGE * (n - 1) := p + PAGE * (n - 1)]
  }

  function WithoutPages(f: Frames, v: nat, n: nat): Frames {
    if n == 0 then f else WithoutPages(f, v, n - 1) - {v + PAGE * (n - 1)}
  }

  class Mappings {
    const virt: VirtMemory
    var frames: Frames

    constructor (virt: VirtMemory)
      ensures this.virt == virt && frames == map[]
    {
      this.virt := virt;
      frames := map[];
    }

    method CreateVirtMapping(paddr: nat, size: nat, granted: bool) returns (v: nat)
      requires virt.free.InBounds() && size > 0
      modifies this, virt.free, virt.free.ranges
      ensures virt.free.InBounds()
      ensures var n := PageCount(paddr, size);
              var (base, rest) := Get(old(virt.free.Contents()), n);
              && virt.free.Contents() == rest
              && v == (if base == 0 then 0 else base + paddr % PAGE)
              && frames == if base == 0 then old(frames) else WithPages(old(frames), base, PageBase(paddr), n + 1)
    {
      var base := PageBase(paddr);
      var count := PageCount(paddr, size);
      var virtBase := virt.AllocVirtPages(count, granted);
      if virtBase == 0 {
        return 0;
      }
      var offset := 0;
      ghost var k := 0;
      while offset <= count * PAGE
        invariant 0 <= k <= count + 1 && offset == PAGE * k
        invariant frames == WithPages(old(frames), virtBase, base, k)
        modifies this`frames
        decreases count + 1 - k
      {
        frames := frames[virtBase + offset := base + offset];
        offset, k := offset + PAGE, k + 1;
      }
      v := virtBase + paddr % PAGE;
    }

    method DeleteVirtMapping(vaddr: nat, size: nat, grow: bool, shrink: bool)
      requires virt.free.InBounds() && size > 0
      requires Placeable(virt.free.Contents(), virt.free.ranges.Length, PageBase(vaddr), PageCount(vaddr, size))
      modifies this, virt.free, virt.free.ranges
      ensures virt.free.InBounds()
      ensures frames == WithoutPages(old(frames), PageBase(vaddr), PageCount(vaddr, size) + 1)
      ensures var was, base, n := old(virt.free.Contents()), PageBase(vaddr), PageCount(vaddr, size);
              if grow || AddMerge(was, old(virt.free.ranges.Length), base, n).Some?
              then Some(virt.free.Contents()) == AddMerge(was, |was| + 1, base, n)
              else virt.free.Contents() == was
    {
      var base := PageBase(vaddr);
      var count := PageCount(vaddr, size);
      var offset := 0;
      ghost var k := 0;
      while offset <= count * PAGE
        invariant 0 <= k <= count + 1 && offset == PAGE * k
        invariant frames == WithoutPages(old(frames), base, k)
        modifies this`frames
        decreases count + 1 - k
      {
        frames := frames - {base + offset};
        offset, k := offset + PAGE, k + 1;
      }
      var placed := virt.FreeVirtPages(base, count, grow, shrink);
    }
  }

  // ----- what the loops change -----

  // `a` is one of `n` pages from `v` on.
  predicate IsPage(a: nat, v: nat, n: nat) { v <= a < v + PAGE * n && (a - v) % PAGE == 0 }

  lemma {:induction false} MappedAt(f: Frames, v: nat, p: nat, n: nat, a: nat)
    ensures a in WithPages(f, v, p, n) <==> a in f || IsPage(a, v, n)
    ensures IsPage(a, v, n) ==> WithPages(f, v, p, n)[a] == p + (a - v)
    ensures a in f && !IsPage(a, v, n) ==> WithPages(f, v, p, n)[a] == f[a]
  {
    if n > 0 {
      MappedAt(f, v, p, n - 1, a);
      LastIsPage(a, v, n);
    }
  }

  lemma LastIsPage(a: nat, v: nat, n: nat)
    requires n > 0
    ensures IsPage(a, v, n) <==> IsPage(a, v, n - 1) || a == v + PAGE * (n - 1)
  {}

  lemma {:induction false} UnmappedAt(f: Frames, v: nat, n: nat, a: nat)
    ensures a in WithoutPages(f, v, n) <==> a in f && !IsPage(a, v, n)
    ensures a in WithoutPages(f, v, n) ==> WithoutPages(f, v, n)[a] == f[a]
  {
    if n > 0 {
      UnmappedAt(f, v, n - 1, a);
      LastIsPage(a, v, n);
    }
  }

  /** The pages that are counted are those that share a byte with the `size` bytes at `a`. */
  lemma PageCountIs(a: nat, size: nat, b: nat)
    requires size > 0
    ensures IsPage(b, PageBase(a), PageCount(a, size)) <==> b % PAGE == 0 && b < a + size && a < b + PAGE
  {
    var first, last := a / PAGE, (a + size - 1) / PAGE;
    assert PageBase(a) == PAGE * first && PageBase(a + size - 1) == PAGE * last;
    assert PAGE * last - PAGE * first == PAGE * (last - first);
    assert PageCount(a, size) == last - first + 1;
    InPages(b, first, last - first + 1);
  }

  lemma InPages(b: nat, first: nat, n: nat)
    ensures IsPage(b, PAGE * first, n) <==> b % PAGE == 0 && first <= b / PAGE < first + n
  {}

  /** Through a new mapping every byte of the range translates to the byte of physical memory it is to show. */
  lemma CreatedTranslates(f: Frames, base: nat, paddr: nat, size: nat, k: nat)
    requires base % PAGE == 0 && k < size
    ensures var f' := WithPages(f, base, PageBase(paddr), PageCount(paddr, size) + 1);
            var x := base + paddr % PAGE + k;
            x - x % PAGE in f' && f'[x - x % PAGE] + x % PAGE == paddr + k
  {
    var x := base + paddr % PAGE + k;
    var b, pb := x - x % PAGE, paddr + k - (paddr + k) % PAGE;
    SamePlace(base, paddr, k);
    PageCountIs(paddr, size, pb);
    LastIsPage(b, base, PageCount(paddr, size) + 1);
    MappedAt(f, base, PageBase(paddr), PageCount(paddr, size) + 1, b);
  }

  /** The address that create_virt_mapping returns and the same size name the pages that it took. */
  lemma DeleteReturnsWhatCreateTook(base: nat, paddr: nat, size: nat)
    requires base % PAGE == 0 && size > 0
    ensures var v := base + paddr % PAGE;
            PageBase(v) == base && PageCount(v, size) == PageCount(paddr, size)
  {
    SamePlace(base, paddr, 0);
    SamePlace(base, paddr, size - 1);
  }

  // The byte has the same place in its page on both sides, and the pages are equally far along.
  lemma SamePlace(base: nat, paddr: nat, k: nat)
    requires base % PAGE == 0
    ensures var x := base + paddr % PAGE + k;
            && x % PAGE == (paddr + k) % PAGE
            && x - x % PAGE - base == paddr + k - (paddr + k) % PAGE - PageBase(paddr)
  {
    var q, o := base / PAGE, paddr / PAGE;
    var r := paddr % PAGE + k;
    assert base + r == r + PAGE * q && paddr + k == r + PAGE * o;
    ModShift(r, q);
    ModShift(r, o);
  }

  lemma ModShift(r: nat, q: nat)
    ensures (r + PAGE * q) % PAGE == r % PAGE
  {}

  // Every page outside the range is as before.
  ghost predicate OthersKept(f: Frames, f': Frames, v: nat, n: nat) {
    forall a: nat | !IsPage(a, v, n) :: (a in f <==> a in f') && (a in f ==> f'[a] == f[a])
  }

  /** Creating a mapping leaves all other pages alone exactly when the page behind it is mapped as the loop maps it. */
  lemma CreateKeepsOthersIff(f: Frames, v: nat, p: nat, n: nat)
    ensures OthersKept(f, WithPages(f, v, p, n + 1), v, n) <==>
            v + PAGE * n in f && f[v + PAGE * n] == p + PAGE * n
  {
    var next := v + PAGE * n;
    assert IsPage(next, v, n + 1) && !IsPage(next, v, n) by { LastIsPage(next, v, n + 1); }
    MappedAt(f, v, p, n + 1, next);
    if next in f && f[next] == p + PAGE * n {
      forall a: nat | !IsPage(a, v, n)
        ensures (a in f <==> a in WithPages(f, v, p, n + 1)) && (a in f ==> WithPages(f, v, p, n + 1)[a] == f[a])
      {
        MappedAt(f, v, p, n + 1, a);
        LastIsPage(a, v, n + 1);
      }
    }
  }

  /** Deleting one leaves all other pages alone exactly when the page behind it is not mapped. */
  lemma DeleteKeepsOthersIff(f: Frames, v: nat, n: nat)
    ensures OthersKept(f, WithoutPages(f, v, n + 1), v, n) <==> v + PAGE * n !in f
  {
    var next := v + PAGE * n;
    assert IsPage(next, v, n + 1) && !IsPage(next, v, n) by { LastIsPage(next, v, n + 1); }
    UnmappedAt(f, v, n + 1, next);
    if next !in f {
      forall a: nat | !IsPage(a, v, n)
        ensures (a in f <==> a in WithoutPages(f, v, n + 1)) && (a in f ==> WithoutPages(f, v, n + 1)[a] == f[a])
      {
        UnmappedAt(f, v, n + 1, a);
        LastIsPage(a, v, n + 1);
      }
    }
  }

  /**
   That page can belong to somebody: of two mappings made in a row, deleting the first unmaps the second's first
   page.
  */
  lemma DeleteReachesNeighbour(f: Frames, r: Range, p: nat, n: nat, p': nat, n': nat)
    requires r.base > 0 && 0 < n && 0 < n' && n + n' < r.pages
    ensures var (v, rest) := Get([r], n);
            var (v', _) := Get(rest, n');
            var f1 := WithPages(f, v, p, n + 1);
            var f2 := WithPages(f1, v', p', n' + 1);
            && v == r.base && v' == r.base + PAGE * n
            && v' in f2 && f2[v'] == p' && v' !in WithoutPages(f2, v, n + 1)
  {
    var (v, rest) := Get([r], n);
    assert rest == [Range(r.base + PAGE * n, r.pages - n)];
    var v' := Get(rest, n').0;
    var f1 := WithPages(f, v, p, n + 1);
    MappedAt(f1, v', p', n' + 1, v');
    UnmappedAt(WithPages(f1, v', p', n' + 1), v, n + 1, v');
    LastIsPage(v', v, n + 1);
  }

  // ----- the page tables -----

  // The canonical address of a page.
  function AddressOf(q: PageTables.Page): nat {
    PAGE * NumberOf(q) + if q.i4 >= 256 then 0xFFFF_0000_0000_0000 else 0
  }

  function NumberOf(q: PageTables.Page): nat { 512 * (512 * (512 * q.i4 + q.i3) + q.i2) + q.i1 }

  /** The indices are the digits of the page number to base 512, lowest last, and the top 16 bits repeat bit 47. */
  lemma AddressDigits(q: PageTables.Page)
    ensures var n := AddressOf(q) / PAGE;
            && AddressOf(q) % PAGE == 0 && n % 512 == q.i1 && n / 512 % 512 == q.i2 && n / 512 / 512 % 512 == q.i3
            && n / 512 / 512 / 512 % 512 == q.i4
            && n / 512 / 512 / 512 / 512 == if q.i4 >= 256 then 0xFFFF else 0
  {
    var high := if q.i4 >= 256 then 0xFFFF else 0;
    var n4 := 512 * high + q.i4;
    var n3 := 512 * n4 + q.i3;
    var n2 := 512 * n3 + q.i2;
    var n1 := 512 * n2 + q.i1;
    assert AddressOf(q) == PAGE * n1;
    OneDigit(n2, q.i1);
    OneDigit(n3, q.i2);
    OneDigit(n4, q.i3);
    OneDigit(high, q.i4);
  }

  lemma OneDigit(n: nat, d: nat)
    requires d < 512
    ensures (512 * n + d) / 512 == n && (512 * n + d) % 512 == d
  {}

  lemma Digits(a: int, b: int, c: int, d: int)
    requires 0 <= b < 512 && 0 <= d < 512 && 512 * a + b == 512 * c + d
    ensures a == c && b == d
  {}

  lemma NumberBound(q: PageTables.Page)
    ensures NumberOf(q) < 0x10_0000_0000
  {}

  lemma AddressesDiffer(q: PageTables.Page, q': PageTables.Page)
    requires AddressOf(q) == AddressOf(q')
    ensures q == q'
  {
    SameNumber(q, q');
    Digits(512 * (512 * q.i4 + q.i3) + q.i2, q.i1, 512 * (512 * q'.i4 + q'.i3) + q'.i2, q'.i1);
    Digits(512 * q.i4 + q.i3, q.i2, 512 * q'.i4 + q'.i3, q'.i2);
    Digits(q.i4, q.i3, q'.i4, q'.i3);
  }

  lemma SameNumber(q: PageTables.Page, q': PageTables.Page)
    requires AddressOf(q) == AddressOf(q')
    ensures NumberOf(q) == NumberOf(q')
  {
    hide NumberOf;
    NumberBound(q);
    NumberBound(q');
  }

  // The tables map exactly the pages in `f`, to the frames it names.
  ghost predicate Represents(f: Frames, m: PageTables.Memory, root: PageTables.Frame) {
    forall q: PageTables.Page | q.i4 != PageTables.SELF ::
      PageTables.View(m, root, q) == if AddressOf(q) in f then Some(f[AddressOf(q)] / PAGE) else None
  }

  /** What map_page does to the tables is the update of the map ... */
  lemma MapPageIsUpdate(f: Frames, m: PageTables.Memory, m': PageTables.Memory, root: PageTables.Frame,
                        q: PageTables.Page, frame: PageTables.Frame, flags: PageTables.Flags)
    requires Represents(f, m, root) && q.i4 != PageTables.SELF
    requires KernelPaging.MappedOnly(m, m', root, q, Leaf4K(frame, flags))
    ensures Represents(f[AddressOf(q) := PAGE * frame], m', root)
  {
    hide AddressOf, PageTables.View;
    forall q': PageTables.Page | q'.i4 != PageTables.SELF
      ensures PageTables.View(m', root, q') ==
              if AddressOf(q') == AddressOf(q) then Some(frame) else PageTables.View(m, root, q')
    {
      KernelPaging.MappedOnlyIsMapUpdate(m, m', root, q, Leaf4K(frame, flags), q');
      if AddressOf(q') == AddressOf(q) { AddressesDiffer(q', q); }
    }
  }

  function Leaf4K(frame: PageTables.Frame, flags: PageTables.Flags): PageTables.Mapping {
    PageTables.Leaf(PageTables.Size4K, PageTables.Pointer(frame, flags))
  }

  /** ... and what unmap_page does is the removal of the page. */
  lemma UnmapPageIsRemoval(f: Frames, m: PageTables.Memory, m': PageTables.Memory, root: PageTables.Frame,
      q: PageTables.Page)
    requires Represents(f, m, root) && q.i4 != PageTables.SELF
    requires KernelPaging.MappedOnly(m, m', root, q, PageTables.Unmapped)
    ensures Represents(f - {AddressOf(q)}, m', root)
  {
    hide AddressOf, PageTables.View;
    forall q': PageTables.Page | q'.i4 != PageTables.SELF
      ensures PageTables.View(m', root, q') ==
              if AddressOf(q') == AddressOf(q) then None else PageTables.View(m, root, q')
    {
      KernelPaging.MappedOnlyIsMapUpdate(m, m', root, q, PageTables.Unmapped, q');
      if AddressOf(q') == AddressOf(q) { AddressesDiffer(q', q); }
    }
  }

  // The pages of a loop that starts at `v`.
  ghost predicate PagesFrom(qs: seq<PageTables.Page>, v: nat) {
    forall k | 0 <= k < |qs| :: qs[k].i4 != PageTables.SELF && AddressOf(qs[k]) == v + PAGE * k
  }

  /** The loop of create_virt_mapping, call by call: the tables end as the map does. */
  lemma {:induction false} CreateChangesTables(f: Frames, ms: seq<PageTables.Memory>, root: PageTables.Frame,
      qs: seq<PageTables.Page>, v: nat, frame: nat, flags: PageTables.Flags, n: nat)
    requires n <= |qs| && |ms| == |qs| + 1 && PagesFrom(qs, v) && frame + |qs| <= 0x10_0000_0000
    requires Represents(f, ms[0], root)
    requires forall k | 0 <= k < |qs| ::
        KernelPaging.MappedOnly(ms[k], ms[k + 1], root, qs[k], Leaf4K(frame + k, flags))
    ensures Represents(WithPages(f, v, PAGE * frame, n), ms[n], root)
  {
    if n > 0 {
      hide Represents, AddressOf;
      CreateChangesTables(f, ms, root, qs, v, frame, flags, n - 1);
      MapPageIsUpdate(WithPages(f, v, PAGE * frame, n - 1), ms[n - 1], ms[n], root, qs[n - 1], frame + (n - 1), flags);
      assert PAGE * (frame + (n - 1)) == PAGE * frame + PAGE * (n - 1);
    }
  }

  /** The same for delete_virt_mapping. */
  lemma {:induction false} DeleteChangesTables(f: Frames, ms: seq<PageTables.Memory>, root: PageTables.Frame,
      qs: seq<PageTables.Page>, v: nat, n: nat)
    requires n <= |qs| && |ms| == |qs| + 1 && PagesFrom(qs, v) && Represents(f, ms[0], root)
    requires forall k | 0 <= k < |qs| :: KernelPaging.MappedOnly(ms[k], ms[k + 1], root, qs[k], PageTables.Unmapped)
    ensures Represents(WithoutPages(f, v, n), ms[n], root)
  {
    if n > 0 {
      hide Represents, AddressOf;
      DeleteChangesTables(f, ms, root, qs, v, n - 1);
      UnmapPageIsRemoval(WithoutPages(f, v, n - 1), ms[n - 1], ms[n], root, qs[n - 1]);
    }
  }
}
