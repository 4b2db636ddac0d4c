/**
 The kernel heap in memory: every block starts with a header that is linked to the headers before and after it.
 The methods follow those links as the kernel does; a ghost list of blocks says what they find, and each method
 turns that list into what HeapSpec says it becomes.
 */
module Heap {
  import opened Pages
  import opened HeapSpec
  import opened HeapList
  import HeapCheck
  import Mmap

  type Bytes = map<nat, bv8>

  // Writing a header destroys the bytes that were there.
  function Erased(bytes: Bytes, a: nat): Bytes {
    map x | x in bytes && !(a <= x < a + HEADER) :: bytes[x]
  }

  function Holds(b: Block, x: nat): bool { Payload(b) <= x < Payload(b) + b.size }

  ghost predicate SameByte(m: Bytes, m': Bytes, x: nat) { (x in m <==> x in m') && (x in m ==> m[x] == m'[x]) }

  // The bytes of the blocks in use are as they were.
  ghost predicate BytesKept(bs: seq<Block>, m: Bytes, m': Bytes) {
    forall i, x | 0 <= i < |bs| && bs[i].used && Holds(bs[i], x) :: SameByte(m, m', x)
  }

  class Heap {
    const start: nat
    const phys: Mmap.MemoryMap
    var end: nat
    var first: nat
    var last: nat
    var hdr: Headers
    var bytes: Bytes
    ghost var blocks: seq<Block>

    ghost predicate Linked()
      reads this
    {
      && 0 < start && blocks != [] && Spaced(blocks) && Chained(hdr, blocks)
      && first == start == blocks[0].addr && last == blocks[|blocks| - 1].addr
    }

    ghost predicate Valid()
      reads this
    {
      Linked() && HeapSpec.Valid(start, blocks, end)
    }

    // init_heap: one page, one free block.
    constructor (start: nat, phys: Mmap.MemoryMap)
      requires 0 < start && start % PAGE == 0 && start + PAGE < WORD
      ensures this.start == start && this.phys == phys
      ensures Valid() && blocks == Init(start).blocks && end == Init(start).end
    {
      this.start, this.phys := start, phys;
      end := start + PAGE;
      first, last := start, start;
      hdr := map[start := Header(PAGE - HEADER, false, 0, 0)];
      bytes := map[];
      blocks := [Block(start, PAGE - HEADER, false)];
    }

    // Block `entry` loses its tail, which becomes a free block.
    method Split(entry: nat, size: nat, ghost k: nat)
      requires Linked() && k < |blocks| && entry == blocks[k].addr && size + HEADER <= blocks[k].size
      requires k + 1 < |blocks| ==> End(blocks[k]) <= blocks[k + 1].addr
      modifies `hdr, `bytes, `last, `blocks
      ensures Linked() && blocks == SplitAt(old(blocks), k, size)
      ensures bytes == Erased(old(bytes), entry + HEADER + size)
    {
      hide Spaced, Chained, PutHeader, Erased;
      SplitChained(hdr, blocks, k, size);
      var h, n := hdr[entry], entry + HEADER + size;
      hdr := PutHeader(hdr, n, Header(h.size - (size + HEADER), false, entry, h.next));
      bytes := Erased(bytes, n);
      hdr := hdr[entry := h.(size := size)];
      if h.next != 0 {
        hdr := hdr[h.next := hdr[h.next].(last := n)];
      } else {
        last := n;
      }
      hdr := hdr[entry := hdr[entry].(next := n)];
      blocks := SplitAt(blocks, k, size);
    }

    // The header after `entry` is taken out of the list.
    method SkipNext(entry: nat, ghost k: nat)
      requires Linked() && k + 1 < |blocks| && entry == blocks[k].addr
      modifies `hdr, `last, `blocks
      ensures Linked() && blocks == old(blocks)[..k + 1] + old(blocks)[k + 2..]
    {
      assert AtHome(hdr, blocks, k) && AtHome(hdr, blocks, k + 1);
      SkipChained(hdr, blocks, k);
      hdr := hdr[entry := hdr[entry].(next := hdr[hdr[entry].next].next)];
      var next := hdr[entry].next;
      if next != 0 {
        hdr := hdr[next := hdr[next].(last := entry)];
      } else {
        last := entry;
      }
      blocks := blocks[..k + 1] + blocks[k + 2..];
    }

    method SetSize(entry: nat, size: nat, ghost k: nat)
      requires Linked() && k < |blocks| && entry == blocks[k].addr
      modifies `hdr, `blocks
      ensures Linked() && blocks == old(blocks)[k := old(blocks)[k].(size := size)]
    {
      assert AtHome(hdr, blocks, k);
      SetChained(hdr, blocks, k, size, blocks[k].used);
      hdr := hdr[entry := hdr[entry].(size := size)];
      blocks := blocks[k := blocks[k].(size := size)];
    }

    method SetUsed(entry: nat, used: bool, ghost k: nat)
      requires Linked() && k < |blocks| && entry == blocks[k].addr
      modifies `hdr, `blocks
      ensures Linked() && blocks == old(blocks)[k := old(blocks)[k].(used := used)]
    {
      assert AtHome(hdr, blocks, k);
      SetChained(hdr, blocks, k, blocks[k].size, used);
      hdr := hdr[entry := hdr[entry].(used := used)];
      blocks := blocks[k := blocks[k].(used := used)];
    }

    // A new free block behind the last one.
    method Append(pages: nat)
      requires Linked() && pages > 0 && End(blocks[|blocks| - 1]) == end
      modifies `hdr, `bytes, `last, `blocks, `end
      ensures Linked() && blocks == Grown(old(blocks), old(end), pages) && end == old(end) + PAGE * pages
      ensures bytes == Erased(old(bytes), old(end)) && last == old(end)
    {
      assert AtHome(hdr, blocks, |blocks| - 1);
      AppendChained(hdr, blocks, end, pages);
      var entry := end;
      hdr := PutHeader(hdr, entry, Header(PAGE * pages - HEADER, false, last, 0));
      bytes := Erased(bytes, entry);
      hdr := hdr[last := hdr[last].(next := entry)];
      last := entry;
      end := end + PAGE * pages;
      blocks := blocks + [Block(entry, PAGE * pages - HEADER, false)];
    }

    method HeapConsistencyCheck() returns (ok: bool)
      requires Linked()
      ensures ok <==> HeapCheck.TiledModulo(start, blocks, end)
    {
      HeapCheck.AcceptedIffTiled(hdr, blocks, start, end);
      ok := HeapCheck.HeapConsistencyCheck(HeapCheck.Store(hdr, start, end, first, last), HeapCheck.Addresses(blocks));
    }

    // The first free block that is large enough, or 0.
    method FindFree(size: nat) returns (entry: nat, ghost k: nat)
      requires Linked()
      ensures k == FirstFreeFit(blocks, size) && entry == if k < |blocks| then blocks[k].addr else 0
    {
      entry, k := first, 0;
      while entry != 0
        invariant k <= |blocks| && entry == if k < |blocks| then blocks[k].addr else 0
        invariant forall j | 0 <= j < k :: blocks[j].used || blocks[j].size < size
        decreases |blocks| - k
      {
        assert AtHome(hdr, blocks, k);
        if !hdr[entry].used && hdr[entry].size >= size {
          break;
        }
        entry, k := hdr[entry].next, k + 1;
      }
    }

    method Kmalloc(requested: nat) returns (ptr: nat)
      requires Valid() && phys.InBounds() && requested < WORD
      requires Available(blocks, phys.Contents(), AlignUp(requested, UNIT)) ==>
          RoomToGrow(blocks, end, AlignUp(requested, UNIT))
      modifies `hdr, `bytes, `last, `blocks, `end, phys`count, phys.ranges
      ensures phys.InBounds() && BytesKept(old(blocks), old(bytes), bytes)
      ensures var size := AlignUp(requested, UNIT);
              var grows := FirstFreeFit(old(blocks), size) == |old(blocks)|;
              var (bs, e, i) := Alloc(old(blocks), old(end), size);
              && phys.Contents() == (if grows then Mmap.Get(old(phys.Contents()), PagesFor(size)).1
                else old(phys.Contents()))
              && (!Available(old(blocks), old(phys.Contents()), size) ==>
                    Valid() && ptr == 0 && blocks == old(blocks) && end == old(end))
              && (Available(old(blocks), old(phys.Contents()), size) ==>
                    && i < |bs| && ptr == Payload(bs[i]) && end == e
                    && (SumWraps(size) ==> Undercut(hdr, last, bs, i, size))
                    && (!SumWraps(size) ==> Valid() && blocks == bs))
    {
      hide Spaced, Chained, Tiled, Aligned, Coalesced, BytesKept, InUse, AlignUp, Mmap.Get, PagesFor, SplitAt, Take,
          Grown, Undercut;
      AlignUpRounds(requested, UNIT);
      var size := AlignUp(requested, UNIT);
      if Available(blocks, phys.Contents(), size) && !SumWraps(size) {
        AllocKeepsValid(start, blocks, end, size);
      }
      BytesKeptSame(blocks, bytes);
      var entry;
      ghost var k;
      entry, k := FindFree(size);
      ghost var mid, bs := bytes, blocks;
      if k < |blocks| {
        Positive(blocks, k);
        NoSumWraps(start, blocks, end, k, size);
      }
      if entry == 0 {
        entry := Grow(size);
        if entry == 0 {
          return 0;
        }
        mid, bs := bytes, blocks;
      }
      if SumWraps(size) {
        LastUnits(size);
        OnePage(size);
      } else {
        NoSumWraps(start, blocks, end, k, size);
      }
      TakeEntry(entry, size, k);
      BytesKeptTwice(old(blocks), bs, old(bytes), mid, bytes);
      ptr := entry + HEADER;
    }

    // Adds physical pages for `size` bytes at the end of the heap, as one free block; 0 if there are none.
    method Grow(size: nat) returns (entry: nat)
      requires Linked() && Tiled(start, blocks, end) && Aligned(blocks) && phys.InBounds()
      modifies `hdr, `bytes, `last, `blocks, `end, phys`count, phys.ranges
      ensures Linked() && Tiled(start, blocks, end) && phys.InBounds()
      ensures var (base, rest) := Mmap.Get(old(phys.Contents()), PagesFor(size));
              && phys.Contents() == rest && entry == (if base == 0 then 0 else old(end)) && (entry == 0 <==> base == 0)
              && if base == 0 then blocks == old(blocks) && end == old(end) && bytes == old(bytes)
                 else blocks == Grown(old(blocks), old(end), PagesFor(size)) && end == old(end) + PAGE * PagesFor(size)
                      && BytesKept(old(blocks), old(bytes), bytes)
                      && old(blocks) < blocks && blocks[|old(blocks)|].addr == entry
                      && !blocks[|old(blocks)|].used && (!SumWraps(size) ==> blocks[|old(blocks)|].size >= size)
                      && |blocks| == |old(blocks)| + 1
                      && blocks[|old(blocks)|].size == PAGE * PagesFor(size) - HEADER
    {
      hide Spaced, Chained, Mmap.Get;
      var pages := (size + HEADER) % WORD / PAGE + 1;
      var base := phys.GetPages(pages);
      if base == 0 {
        return 0;
      }
      GrownKeepsTiled(start, blocks, end, pages);
      FreeAreaKept(start, Grown(blocks, end, pages), end + PAGE * pages, |blocks|, bytes, end);
      BytesKeptPrefix(blocks, Grown(blocks, end, pages), bytes, Erased(bytes, end));
      entry := end;
      Append(pages);
    }

    // Marks the free block `entry` used, and splits off its tail if that is large enough.
    method TakeEntry(entry: nat, size: nat, ghost k: nat)
      requires Linked() && Tiled(start, blocks, end) && k < |blocks| && entry == blocks[k].addr && !blocks[k].used
      requires if SumWraps(size) then size % UNIT == 0 && size < WORD && k == |blocks| - 1
        && blocks[k].size == PAGE - HEADER && End(blocks[k]) < WORD
               else size <= blocks[k].size && size + HEADER + SPARE < WORD
      modifies `hdr, `bytes, `last, `blocks
      ensures SumWraps(size) ==> Undercut(hdr, last, old(blocks)[k := old(blocks[k]).(used := true)], k, size)
      ensures !SumWraps(size) ==>
          Linked() && blocks == Take(old(blocks), k, size) && k < |blocks| && blocks[k].addr == entry
      ensures BytesKept(old(blocks), old(bytes), bytes)
    {
      hide Spaced, Chained, Undercut;
      assert blocks[k] == old(blocks[k]);
      if SumWraps(size) {
        LastUnits(size);
        WrapsBack(entry, size);
        FreeAreaKept(start, blocks, end, k, bytes, (entry + HEADER + size) % WORD);
      } else {
        FreeAreaKept(start, blocks, end, k, bytes, entry + HEADER + size);
      }
      SetUsed(entry, true, k);
      ListedAt(hdr, blocks, k);
      if hdr[entry].size > (size + HEADER + SPARE) % WORD {
        if SumWraps(size) {
          SplitOwnHeader(entry, size, k);
        } else {
          Split(entry, size, k);
        }
      }
    }

    // The same split where the sum of header and size wraps: the new header lies over the block's own.
    method SplitOwnHeader(entry: nat, size: nat, ghost k: nat)
      requires Linked() && k == |blocks| - 1 && entry == blocks[k].addr && End(blocks[k]) < WORD
      requires size in {WORD - HEADER, WORD - UNIT} && blocks[k].size > UNIT
      modifies `hdr, `bytes, `last
      ensures Undercut(hdr, last, blocks, k, size) && bytes == Erased(old(bytes), (entry + HEADER + size) % WORD)
    {
      hide Erased, Spaced, Chained, PutHeader, Undercut;
      LinksNull(hdr, blocks, k);
      WrapsBack(entry, size);
      var h, n := hdr[entry], (entry + HEADER + size) % WORD;
      var tail := Header(h.size - (size + HEADER) % WORD, false, entry, h.next);
      SplitUndercut(hdr, blocks, k, size, n, tail);
      hdr := PutHeader(hdr, n, tail);
      ghost var put := hdr;
      bytes := Erased(bytes, n);
      if n == entry {
        hdr := hdr[entry := hdr[entry].(size := size)];
      }
      last := n;
      hdr := if n == entry then hdr[entry := hdr[entry].(next := n)] else hdr - {n};
      assert n == entry ==> hdr == put[n := tail.(size := size, next := n)];
    }

    // Frees the i-th block, whose payload is at `ptr`.
    method Kfree(ptr: nat, ghost i: nat)
      requires Valid() && i < |blocks| && blocks[i].used && ptr == Payload(blocks[i])
      modifies `hdr, `last, `blocks, `end
      ensures Linked() && (blocks, end) == Free(old(blocks), old(end), i)
      ensures Valid() <==> !Underflows(old(blocks), old(end), i)
    {
      hide Spaced, Chained, Tiled, Aligned, Coalesced, InUse, AlignUp;
      FreeKeepsValidIff(start, blocks, end, i);
      var entry := ptr - HEADER;
      SetUsed(entry, false, i);
      ghost var k;
      entry, k := JoinLast(entry, i);
      JoinNext(entry, k);
      assert (blocks, k) == Release(old(blocks), i);
      Trim(entry, k);
    }

    method JoinLast(block: nat, ghost i: nat) returns (entry: nat, ghost k: nat)
      requires Linked() && i < |blocks| && !blocks[i].used && block == blocks[i].addr
      modifies `hdr, `last, `blocks
      ensures Linked()
      ensures (blocks, k) == if i > 0 && JoinsNext(old(blocks), i - 1) then (Absorb(old(blocks), i - 1), i - 1)
          else (old(blocks), i)
      ensures k < |blocks| && entry == blocks[k].addr
    {
      hide Spaced, Chained;
      entry, k := block, i;
      LinksNull(hdr, blocks, i);
      if hdr[entry].last != 0 {
        var last := hdr[entry].last;
        ListedAt(hdr, blocks, i - 1);
        if !hdr[last].used && last + HEADER + hdr[last].size == entry {
          SetSize(last, hdr[last].size + (HEADER + hdr[entry].size), i - 1);
          SkipNext(last, i - 1);
          assert blocks == Absorb(old(blocks), i - 1);
          entry, k := last, i - 1;
        }
      }
    }

    method JoinNext(entry: nat, ghost k: nat)
      requires Linked() && k < |blocks| && !blocks[k].used && entry == blocks[k].addr
      modifies `hdr, `last, `blocks
      ensures Linked() && blocks == if JoinsNext(old(blocks), k) then Absorb(old(blocks), k) else old(blocks)
    {
      hide Spaced, Chained;
      LinksNull(hdr, blocks, k);
      var next := hdr[entry].next;
      if next != 0 {
        ListedAt(hdr, blocks, k + 1);
        if !hdr[next].used && entry + HEADER + hdr[entry].size == next {
          SetSize(entry, hdr[entry].size + (HEADER + hdr[next].size), k);
          SkipNext(entry, k);
        }
      }
    }

    method Trim(entry: nat, ghost k: nat)
      requires Linked() && k < |blocks| && entry == blocks[k].addr
      modifies `hdr, `last, `blocks, `end
      ensures Linked() && (blocks, end) == Trimmed(old(blocks), old(end), k)
    {
      hide Spaced, Chained, AlignUp;
      LinksNull(hdr, blocks, k);
      if hdr[entry].next == 0 && hdr[entry].last != 0 && AlignUp(entry + HEADER + SPARE, PAGE) != end {
        var newEnd := AlignUp(entry, PAGE);
        if entry == newEnd {
          DropLast();
        } else {
          SetSize(entry, (newEnd + WORD - entry - HEADER) % WORD, k);
        }
        end := newEnd;
      }
    }

    method DropLast()
      requires Linked() && |blocks| > 1
      modifies `hdr, `last, `blocks
      ensures Linked() && blocks == old(blocks)[..|old(blocks)| - 1]
    {
      hide Spaced, Chained;
      ListedAt(hdr, blocks, |blocks| - 1);
      ListedAt(hdr, blocks, |blocks| - 2);
      DropChained(hdr, blocks);
      last := hdr[last].last;
      hdr := hdr[last := hdr[last].(next := 0)];
      blocks := blocks[..|blocks| - 1];
    }

    // Resizes the i-th block, whose payload is at `ptr`.
    method Krealloc(ptr: nat, requested: nat, ghost i: nat) returns (r: nat)
      requires Valid() && phys.InBounds() && i < |blocks| && blocks[i].used && ptr == Payload(blocks[i])
      requires requested < WORD
      requires Available(blocks, phys.Contents(), AlignUp(requested, UNIT)) ==>
          RoomToGrow(blocks, end, AlignUp(requested, UNIT)) && !SumWraps(AlignUp(requested, UNIT))
      modifies `hdr, `bytes, `last, `blocks, `end, phys`count, phys.ranges
      ensures Linked() && phys.InBounds()
      ensures var size := AlignUp(requested, UNIT);
              var found := Available(old(blocks), old(phys.Contents()), size);
              && (blocks, end) == Resized(old(blocks), old(end), i, size, found)
              && r == ResizedAt(old(blocks), old(end), i, size, found)
              && (Valid() <==> ResizeSound(old(blocks), old(end), i, size, found))
              && BytesKept(Others(old(blocks), i), old(bytes), bytes)
              && (r != 0 ==> Moved(old(bytes), ptr, bytes, r, Min(size, old(blocks)[i].size)))
              && (r == 0 ==> BytesKept(old(blocks), old(bytes), bytes))
              && phys.Contents() == (if PathOf(old(blocks), i, size) == Path.Move
                && FirstFreeFit(old(blocks), size) == |old(blocks)|
                                     then Mmap.Get(old(phys.Contents()), PagesFor(size)).1 else old(phys.Contents()))
    {
      hide Spaced, Chained, Tiled, Aligned, Coalesced, InUse, AlignUp, BytesKept, Mmap.Get, Resized, ResizedAt,
          ResizeSound;
      AlignUpRounds(requested, UNIT);
      var size := AlignUp(requested, UNIT);
      AlignedUp(size);
      ghost var found := Available(blocks, phys.Contents(), size);
      ResizeKeepsValidIff(start, blocks, end, i, size, found);
      var entry := ptr - HEADER;
      LinksNull(hdr, blocks, i);
      if size > hdr[entry].size {
        var tot := FindRoom(entry, size, i);
        if tot < size {
          r := Move(ptr, size, i);
          return;
        }
        Swallow(entry, size, tot, i);
      } else if size < hdr[entry].size {
        Shrink(entry, size, i);
      } else {
        BytesKeptSame(Trunc(blocks, i, size), bytes);
      }
      InPlace(old(blocks), end, i, size, found);
      TruncKept(old(blocks), i, Min(size, old(blocks)[i].size), old(bytes), bytes);
      r := ptr;
    }

    method Shrink(entry: nat, size: nat, ghost i: nat)
      requires Valid() && i < |blocks| && blocks[i].used && entry == blocks[i].addr && size < blocks[i].size
          && size % UNIT == 0
      modifies `hdr, `bytes, `last, `blocks
      ensures Linked() && blocks == if FreeNext(old(blocks), i) then ShiftNext(old(blocks), i, size)
          else CutTail(old(blocks), i, size)
      ensures BytesKept(Trunc(old(blocks), i, size), old(bytes), bytes)
    {
      hide Spaced, Chained, Coalesced, Aligned, BytesKept, Erased;
      LinksNull(hdr, blocks, i);
      ErasedTail(start, blocks, end, i, size, bytes, entry + HEADER + size);
      BytesKeptSame(Trunc(blocks, i, size), bytes);
      if hdr[entry].next != 0 {
        ListedAt(hdr, blocks, i + 1);
        if !hdr[hdr[entry].next].used {
          Shift(entry, size, i);
          return;
        }
      }
      if hdr[entry].size - size >= HEADER + SPARE {
        Split(entry, size, i);
      }
    }

    // Moves the header of the free successor down to where the shrunk block ends.
    method Shift(entry: nat, size: nat, ghost i: nat)
      requires Linked() && i + 1 < |blocks| && !blocks[i + 1].used && entry == blocks[i].addr && size < blocks[i].size
      requires End(blocks[i]) == blocks[i + 1].addr
      modifies `hdr, `bytes, `last, `blocks
      ensures Linked() && blocks == ShiftNext(old(blocks), i, size)
          && bytes == Erased(old(bytes), entry + HEADER + size)
    {
      hide Spaced, Chained, PutHeader, Erased;
      LinksNull(hdr, blocks, i + 1);
      ShiftChained(hdr, blocks, i, size);
      var n := entry + HEADER + size;
      hdr := PutHeader(hdr, n, hdr[hdr[entry].next]);
      bytes := Erased(bytes, n);
      hdr := hdr[entry := hdr[entry].(next := n)];
      hdr := hdr[n := hdr[n].(size := hdr[n].size + (hdr[entry].size - size))];
      if hdr[n].next != 0 {
        hdr := hdr[hdr[n].next := hdr[hdr[n].next].(last := n)];
      } else {
        last := n;
      }
      blocks := ShiftNext(blocks, i, size);
    }

    // Adds up the room behind `entry` the way the kernel does: each free successor replaces the sum.
    method FindRoom(entry: nat, size: nat, ghost i: nat) returns (tot: nat)
      requires Valid() && i < |blocks| && entry == blocks[i].addr && blocks[i].size < size
      ensures tot >= size <==> FreeNext(blocks, i) && blocks[i + 1].size + HEADER >= size
      ensures tot >= size ==> tot == blocks[i + 1].size + HEADER
    {
      LinksNull(hdr, blocks, i);
      tot := hdr[entry].size;
      var cur := entry;
      ghost var k := i;
      while tot < size
        invariant (k == i && tot == blocks[i].size)
            || (k == i + 1 && FreeNext(blocks, i) && tot == blocks[k].size + HEADER)
        invariant cur == blocks[k].addr
        decreases |blocks| - k
      {
        LinksNull(hdr, blocks, k);
        cur := hdr[cur].next;
        if cur == 0 {
          break;
        }
        k := k + 1;
        LinksNull(hdr, blocks, k);
        if hdr[cur].used {
          break;
        }
        tot := hdr[cur].size + HEADER;
      }
    }

    method Swallow(entry: nat, size: nat, tot: nat, ghost i: nat)
      requires Valid() && i < |blocks| && blocks[i].used && entry == blocks[i].addr && size > blocks[i].size
      requires FreeNext(blocks, i) && tot == blocks[i + 1].size + HEADER >= size
      modifies `hdr, `bytes, `last, `blocks
      ensures Linked() && blocks == SwallowNext(old(blocks), i, size)
      ensures BytesKept(Trunc(old(blocks), i, old(blocks)[i].size), old(bytes), bytes)
    {
      hide Spaced, Chained, Coalesced, Aligned, BytesKept, Erased;
      ErasedTail(start, blocks, end, i, blocks[i].size, bytes, entry + HEADER + size);
      BytesKeptSame(Trunc(blocks, i, blocks[i].size), bytes);
      SkipNext(entry, i);
      SetSize(entry, tot, i);
      ListedAt(hdr, blocks, i);
      assert i + 1 < |blocks| ==> blocks[i + 1] == old(blocks)[i + 2];
      if hdr[entry].size > size + HEADER + SPARE {
        Split(entry, size, i);
      }
      assert blocks == SwallowNext(old(blocks), i, size);
    }

    method Move(ptr: nat, size: nat, ghost i: nat) returns (r: nat)
      requires Valid() && phys.InBounds() && i < |blocks| && blocks[i].used && ptr == Payload(blocks[i])
      requires size % UNIT == 0 && blocks[i].size < size < WORD && PathOf(blocks, i, size) == Path.Move
      requires Available(blocks, phys.Contents(), size) ==> RoomToGrow(blocks, end, size) && !SumWraps(size)
      modifies `hdr, `bytes, `last, `blocks, `end, phys`count, phys.ranges
      ensures Linked() && phys.InBounds()
      ensures var found := Available(old(blocks), old(phys.Contents()), size);
              && (blocks, end) == Resized(old(blocks), old(end), i, size, found)
              && r == ResizedAt(old(blocks), old(end), i, size, found)
              && BytesKept(Others(old(blocks), i), old(bytes), bytes)
              && (r != 0 ==> Moved(old(bytes), ptr, bytes, r, old(blocks)[i].size))
              && (r == 0 ==> BytesKept(old(blocks), old(bytes), bytes))
              && phys.Contents() == (if FirstFreeFit(old(blocks), size) == |old(blocks)|
                                     then Mmap.Get(old(phys.Contents()), PagesFor(size)).1 else old(phys.Contents()))
    {
      hide Spaced, Chained, Tiled, Aligned, Coalesced, BytesKept, Mmap.Get, AlignUp, InUse, Moved;
      ghost var was, found := blocks, Available(blocks, phys.Contents(), size);
      AlignedUp(size);
      r := Kmalloc(size);
      if r != 0 {
        ghost var mid, j, k := bytes, Alloc(was, old(end), size).2, IndexAfterAlloc(was, size, i);
        BlockAfterAlloc(was, old(end), size, i);
        ListedAt(hdr, blocks, k);
        AllocKeepsValid(start, was, old(end), size);
        assert j != k by { NotTaken(was, old(end), size, i); }
        Copy(r, ptr, hdr[ptr - HEADER].size, j, k);
        CopyKept(start, was, blocks, end, i, j, old(bytes), mid, bytes);
        CopyMoved(was, i, old(bytes), mid, bytes, r);
        Kfree(ptr, k);
      }
      OthersKept(was, i, old(bytes), bytes);
    }

    // memcpy from the payload of block `i` to that of block `j`. Bytes that hold nothing known are copied as such.
    method Copy(dst: nat, src: nat, n: nat, ghost j: nat, ghost i: nat)
      requires Valid() && i < |blocks| && j < |blocks| && i != j && n <= blocks[i].size && n <= blocks[j].size
      requires src == Payload(blocks[i]) && dst == Payload(blocks[j])
      modifies `hdr, `bytes
      ensures Linked() && Moved(old(bytes), src, bytes, dst, n)
      ensures forall x: nat | !(dst <= x < dst + n) :: SameByte(old(bytes), bytes, x)
    {
      hide Spaced, Chained, Tiled, Aligned, Coalesced;
      PayloadsDisjoint(start, blocks, end, i, j);
      for x := 0 to n
        invariant Linked() && Moved(old(bytes), src, bytes, dst, x)
        invariant forall y: nat | !(dst <= y < dst + x) :: SameByte(old(bytes), bytes, y)
      {
        OverwrittenKeeps(start, hdr, blocks, end, j, dst + x);
        assert SameByte(old(bytes), bytes, src + x);
        ghost var before := bytes;
        hdr := Overwritten(hdr, dst + x);
        bytes := if src + x in bytes then bytes[dst + x := bytes[src + x]] else bytes - {dst + x};
        MovedOn(old(bytes), src, before, bytes, dst, x);
      }
    }

    // A store into the payload of a block in use.
    method Store(x: nat, v: bv8, ghost i: nat)
      requires Valid() && i < |blocks| && blocks[i].used && Holds(blocks[i], x)
      modifies `hdr, `bytes
      ensures Valid() && bytes == old(bytes)[x := v]
    {
      OverwrittenKeeps(start, hdr, blocks, end, i, x);
      hdr := Overwritten(hdr, x);
      bytes := bytes[x := v];
    }
  }

  lemma WrapsBack(a: nat, size: nat)
    requires size in {WORD - HEADER, WORD - UNIT} && a + HEADER < WORD
    ensures (a + HEADER + size) % WORD == a + HEADER + size - WORD
  {}

  lemma OnePage(size: nat)
    requires size in {WORD - HEADER, WORD - UNIT}
    ensures PagesFor(size) == 1
  {}

  // ----- bytes -----

  // A header put into a free block destroys none of the bytes in use.
  lemma FreeAreaKept(start: nat, bs: seq<Block>, end: nat, k: nat, m: Bytes, a: nat)
    requires Tiled(start, bs, end) && k < |bs| && !bs[k].used && bs[k].addr <= a
    ensures a + HEADER <= End(bs[k]) ==> BytesKept(bs, m, Erased(m, a))
  {
    forall i, x | 0 <= i < |bs| && bs[i].used && Holds(bs[i], x) && a + HEADER <= End(bs[k])
      ensures SameByte(m, Erased(m, a), x)
    {
      if i < k { AddressesRise(start, bs, end, i, k); } else { AddressesRise(start, bs, end, k, i); }
    }
  }

  lemma BytesKeptSame(bs: seq<Block>, m: Bytes)
    ensures BytesKept(bs, m, m)
  {}

  lemma BytesKeptPrefix(bs: seq<Block>, bs': seq<Block>, m: Bytes, m': Bytes)
    requires bs <= bs' && BytesKept(bs', m, m')
    ensures BytesKept(bs, m, m')
  {
    forall i, x | 0 <= i < |bs| && bs[i].used && Holds(bs[i], x) ensures SameByte(m, m', x) {
      assert bs'[i] == bs[i];
    }
  }

  lemma BytesKeptTwice(bs: seq<Block>, bs': seq<Block>, m: Bytes, m': Bytes, m'': Bytes)
    requires bs <= bs' && BytesKept(bs, m, m') && BytesKept(bs', m', m'')
    ensures BytesKept(bs, m, m'')
  {
    forall i, x | 0 <= i < |bs| && bs[i].used && Holds(bs[i], x) ensures SameByte(m, m'', x) {
      assert bs'[i] == bs[i] && SameByte(m, m', x) && SameByte(m', m'', x);
    }
  }

  function Min(a: nat, b: nat): nat { if a <= b then a else b }

  // The blocks with only the first `size` bytes of block `i`, or without it.
  function Trunc(bs: seq<Block>, i: nat, size: nat): seq<Block>
    requires i < |bs|
  {
    bs[i := bs[i].(size := size)]
  }

  function Others(bs: seq<Block>, i: nat): seq<Block>
    requires i < |bs|
  {
    bs[i := bs[i].(used := false)]
  }

  predicate Available(bs: seq<Block>, free: seq<Mmap.Range>, size: nat) {
    FirstFreeFit(bs, size) < |bs| || Mmap.Get(free, PagesFor(size)).0 != 0
  }

  /** kmalloc returns null exactly when no free block and no range of physical pages is large enough. */
  lemma KmallocFailsIff(bs: seq<Block>, free: seq<Mmap.Range>, size: nat)
    requires Mmap.Valid(free)
    ensures !Available(bs, free, size) <==>
            && (forall i | 0 <= i < |bs| :: bs[i].used || bs[i].size < size)
            && (forall i | 0 <= i < |free| :: free[i].pages < PagesFor(size))
  {
    Mmap.GetFailsIffNoneFits(free, PagesFor(size));
  }

  ghost predicate SameFrom(m: Bytes, a: nat, m': Bytes, b: nat, x: nat) {
    (a + x in m <==> b + x in m') && (a + x in m ==> m[a + x] == m'[b + x])
  }

  // The `n` bytes at `b` are those that were at `a`.
  ghost predicate Moved(m: Bytes, a: nat, m': Bytes, b: nat, n: nat) {
    forall x: nat | x < n :: SameFrom(m, a, m', b, x)
  }

  lemma TruncKept(bs: seq<Block>, i: nat, size: nat, m: Bytes, m': Bytes)
    requires i < |bs| && bs[i].used && BytesKept(Trunc(bs, i, size), m, m')
    ensures BytesKept(Others(bs, i), m, m') && Moved(m, Payload(bs[i]), m', Payload(bs[i]), size)
  {
    var t := Trunc(bs, i, size);
    forall k, x | 0 <= k < |bs| && Others(bs, i)[k].used && Holds(Others(bs, i)[k], x) ensures SameByte(m, m', x) {
      assert t[k] == bs[k];
    }
    forall x: nat | x < size ensures SameFrom(m, Payload(bs[i]), m', Payload(bs[i]), x) {
      assert Holds(t[i], Payload(bs[i]) + x) && SameByte(m, m', Payload(bs[i]) + x);
    }
  }

  // A header put behind the first `keep` bytes of block `i`, in the block or in its free successor.
  lemma ErasedTail(start: nat, bs: seq<Block>, end: nat, i: nat, keep: nat, m: Bytes, n: nat)
    requires Tiled(start, bs, end) && i < |bs| && keep <= bs[i].size && Payload(bs[i]) + keep <= n
    ensures n + HEADER <= End(bs[i]) || (FreeNext(bs, i) && n + HEADER <= End(bs[i + 1]))
            ==> BytesKept(Trunc(bs, i, keep), m, Erased(m, n))
  {
    var t := Trunc(bs, i, keep);
    if n + HEADER <= End(bs[i]) || (FreeNext(bs, i) && n + HEADER <= End(bs[i + 1])) {
      forall k, x | 0 <= k < |t| && t[k].used && Holds(t[k], x) ensures SameByte(m, Erased(m, n), x) {
        if k < i {
          AddressesRise(start, bs, end, k, i);
        } else if k > i {
          AddressesRise(start, bs, end, i, k);
          if k > i + 1 { AddressesRise(start, bs, end, i + 1, k); }
        }
      }
    }
  }

  lemma InPlace(bs: seq<Block>, end: nat, i: nat, size: nat, found: bool)
    requires i < |bs| && bs[i].used && PathOf(bs, i, size) != Move
    ensures ResizedAt(bs, end, i, size, found) == Payload(bs[i])
    ensures Resized(bs, end, i, size, found) ==
      (match PathOf(bs, i, size)
       case Shift => ShiftNext(bs, i, size)
       case Cut => CutTail(bs, i, size)
       case Keep => bs
       case Swallow => SwallowNext(bs, i, size)
       case Move => bs,
       end)
  {}

  // One more byte copied.
  lemma MovedOn(m: Bytes, a: nat, m': Bytes, m'': Bytes, b: nat, n: nat)
    requires Moved(m, a, m', b, n) && SameByte(m, m', a + n)
    requires m'' == if a + n in m' then m'[b + n := m'[a + n]] else m' - {b + n}
    ensures Moved(m, a, m'', b, n + 1)
    ensures forall x: nat | x != b + n && SameByte(m, m', x) :: SameByte(m, m'', x)
  {
    forall x: nat | x < n + 1 ensures SameFrom(m, a, m'', b, x) {
      assert x < n ==> SameFrom(m, a, m', b, x);
    }
  }

  lemma AlignedUp(size: nat)
    requires size % UNIT == 0 && size + UNIT <= WORD
    ensures AlignUp(size, UNIT) == size
  {
    AlignUpRounds(size, UNIT);
  }

  lemma OthersKept(bs: seq<Block>, i: nat, m: Bytes, m': Bytes)
    requires i < |bs| && bs[i].used && BytesKept(bs, m, m')
    ensures BytesKept(Others(bs, i), m, m')
  {
    forall k, x | 0 <= k < |bs| && Others(bs, i)[k].used && Holds(Others(bs, i)[k], x) ensures SameByte(m, m', x) {
      assert Holds(bs[k], x);
    }
  }

  lemma NotTaken(bs: seq<Block>, end: nat, size: nat, i: nat)
    requires i < |bs| && bs[i].used
    ensures Alloc(bs, end, size).2 != IndexAfterAlloc(bs, size, i)
  {}

  lemma PayloadsDisjoint(start: nat, bs: seq<Block>, end: nat, i: nat, j: nat)
    requires Tiled(start, bs, end) && i < |bs| && j < |bs| && i != j
    ensures End(bs[i]) <= bs[j].addr || End(bs[j]) <= bs[i].addr
  {
    if i < j { AddressesRise(start, bs, end, i, j); } else { AddressesRise(start, bs, end, j, i); }
  }

  lemma OverwrittenKeeps(start: nat, hdr: Headers, bs: seq<Block>, end: nat, j: nat, x: nat)
    requires Tiled(start, bs, end) && Chained(hdr, bs) && j < |bs| && Holds(bs[j], x)
    ensures Chained(Overwritten(hdr, x), bs)
  {
    forall k | 0 <= k < |bs| ensures AtHome(Overwritten(hdr, x), bs, k) {
      ListedAt(hdr, bs, k);
      if k != j { PayloadsDisjoint(start, bs, end, k, j); }
    }
  }

  // kmalloc into block `j` and a copy into it keep the bytes of every block but the i-th.
  lemma CopyKept(start: nat, bs: seq<Block>, bs': seq<Block>, end: nat, i: nat, j: nat, m: Bytes, m': Bytes, m'': Bytes)
    requires Tiled(start, bs', end) && i < |bs| && j < |bs'| && BytesKept(bs, m, m')
    requires forall b | InUse(bs, b) :: InUse(bs', b) && b != bs'[j]
    requires forall x: nat | !Holds(bs'[j], x) :: SameByte(m', m'', x)
    ensures BytesKept(bs, m, m'')
  {
    forall k, x | 0 <= k < |bs| && bs[k].used && Holds(bs[k], x) ensures SameByte(m, m'', x) {
      assert SameByte(m, m', x);
      assert InUse(bs, bs[k]);
      var k' :| 0 <= k' < |bs'| && bs'[k'] == bs[k];
      PayloadsDisjoint(start, bs', end, k', j);
      assert SameByte(m', m'', x);
    }
  }

  lemma CopyMoved(bs: seq<Block>, i: nat, m: Bytes, m': Bytes, m'': Bytes, r: nat)
    requires i < |bs| && bs[i].used && BytesKept(bs, m, m') && Moved(m', Payload(bs[i]), m'', r, bs[i].size)
    ensures Moved(m, Payload(bs[i]), m'', r, bs[i].size)
  {
    forall x: nat | x < bs[i].size ensures SameFrom(m, Payload(bs[i]), m'', r, x) {
      assert Holds(bs[i], Payload(bs[i]) + x) && SameByte(m, m', Payload(bs[i]) + x);
      assert SameFrom(m', Payload(bs[i]), m'', r, x);
    }
  }
}
