/**
 The kernel heap as a list of blocks in address order, and what kmalloc, kfree and krealloc do to it. Sizes are
 64-bit numbers, as in the headers. The methods of the Heap module implement these functions; here it is proved
 which of them keep the list a tiling of the heap.
 */
module HeapSpec {
  import opened Pages

  const WORD := 0x1_0000_0000_0000_0000
  const HEADER := 32       // sizeof(heap_entry)
  const UNIT := 16         // alignof(max_align_t)
  const SPARE := 32        // sizeof(max_align_t)

  // ALIGN_DOWN and ALIGN_UP, on 64-bit numbers.
  function AlignDown(a: nat, align: nat): nat
    requires align > 0
  {
    a - a % align
  }

  function AlignUp(a: nat, align: nat): nat
    requires 0 < align
  {
    (AlignDown((a + WORD - 1) % WORD, align) + align) % WORD
  }

  datatype Block = Block(addr: nat, size: nat, used: bool)

  function End(b: Block): nat { b.addr + HEADER + b.size }
  function Payload(b: Block): nat { b.addr + HEADER }

  // The blocks lie end to end from `start` to `end`.
  ghost predicate Tiled(start: nat, bs: seq<Block>, end: nat) {
    && bs != [] && bs[0].addr == start && End(bs[|bs| - 1]) == end
    && (forall i | 0 <= i < |bs| - 1 :: bs[i + 1].addr == End(bs[i]))
  }

  ghost predicate Aligned(bs: seq<Block>) { forall i | 0 <= i < |bs| :: bs[i].size % UNIT == 0 }

  ghost predicate Coalesced(bs: seq<Block>) { forall i | 0 <= i < |bs| - 1 :: bs[i].used || bs[i + 1].used }

  // What every state of the heap should be like.
  ghost predicate Valid(start: nat, bs: seq<Block>, end: nat) {
    Tiled(start, bs, end) && Aligned(bs) && Coalesced(bs) && start % PAGE == 0 && end % PAGE == 0 && end < WORD
  }

  // Block `i` cut at `size` bytes of payload; the rest is a free block.
  function SplitAt(bs: seq<Block>, i: nat, size: nat): seq<Block>
    requires i < |bs| && size + HEADER <= bs[i].size
  {
    var b := bs[i];
    bs[..i] + [b.(size := size), Block(b.addr + HEADER + size, b.size - (size + HEADER), false)] + bs[i + 1..]
  }

  // ----- kmalloc -----

  // The first free block of at least `size` bytes; |bs| if there is none.
  function FirstFreeFit(bs: seq<Block>, size: nat): (i: nat)
    ensures i <= |bs| && (i < |bs| ==> !bs[i].used && bs[i].size >= size)
    ensures forall j | 0 <= j < i :: bs[j].used || bs[j].size < size
  {
    if bs == [] then 0 else if !bs[0].used && bs[0].size >= size then 0 else 1 + FirstFreeFit(bs[1..], size)
  }

  // Block `i` taken, and its tail split off if that leaves more than a header and a spare unit.
  function Take(bs: seq<Block>, i: nat, size: nat): seq<Block>
    requires i < |bs| && size <= bs[i].size
  {
    var taken := bs[i := bs[i].(used := true)];
    if bs[i].size > size + HEADER + SPARE then SplitAt(taken, i, size) else taken
  }

  // The sum is a 64-bit number: with a size of 2^64 - 32 or 2^64 - 16 it wraps, and one page is asked for.
  function PagesFor(size: nat): nat { (size + HEADER) % WORD / PAGE + 1 }

  predicate SumWraps(size: nat) { size + HEADER >= WORD }

  function Grown(bs: seq<Block>, end: nat, pages: nat): seq<Block>
    requires pages > 0
  {
    bs + [Block(end, PAGE * pages - HEADER, false)]
  }

  // If the heap has to grow for `size` bytes its end stays below 2^64.
  predicate RoomToGrow(bs: seq<Block>, end: nat, size: nat) {
    FirstFreeFit(bs, size) == |bs| ==> end + PAGE * PagesFor(size) < WORD
  }

  // kmalloc of an aligned size: the blocks, the end of the heap, and which block was taken. Where the sum wraps, the
  // block is too small to be cut; what the attempt does to its header is left to the Heap module.
  function Alloc(bs: seq<Block>, end: nat, size: nat): (seq<Block>, nat, nat) {
    var i, grown := FirstFreeFit(bs, size), Grown(bs, end, PagesFor(size));
    if i < |bs| then (Take(bs, i, size), end, i)
    else if SumWraps(size) then (grown[|bs| := grown[|bs|].(used := true)], end + PAGE * PagesFor(size), |bs|)
    else
      PagesSuffice(size);
      (Take(grown, |bs|, size), end + PAGE * PagesFor(size), |bs|)
  }

  // The bytes that kmalloc's caller gets, at the returned address and up to the next header or the end of the heap.
  function Granted(bs: seq<Block>, end: nat, size: nat): nat {
    var i := FirstFreeFit(bs, size);
    var room := if i < |bs| then bs[i].size else PAGE * PagesFor(size) - HEADER;
    if room > (size + HEADER + SPARE) % WORD && size <= room then size else room
  }

  // ----- kfree -----

  // Block `i` absorbs its successor.
  function Absorb(bs: seq<Block>, i: nat): seq<Block>
    requires i + 1 < |bs|
  {
    bs[..i] + [bs[i].(size := bs[i].size + HEADER + bs[i + 1].size)] + bs[i + 2..]
  }

  predicate JoinsNext(bs: seq<Block>, i: nat) {
    i + 1 < |bs| && !bs[i].used && !bs[i + 1].used && End(bs[i]) == bs[i + 1].addr
  }

  // Block `i` freed and joined with free neighbours; the index of the resulting block.
  function Release(bs: seq<Block>, i: nat): (r: (seq<Block>, nat))
    requires i < |bs|
    ensures r.1 < |r.0|
  {
    var (bs1, k) := ReleaseBack(bs, i);
    (if JoinsNext(bs1, k) then Absorb(bs1, k) else bs1, k)
  }

  // The last block is free, is not the only one, and reaches into a page beyond the one it has to begin in.
  predicate Trims(bs: seq<Block>, end: nat, k: nat) {
    k < |bs| && k == |bs| - 1 && k > 0 && AlignUp(bs[k].addr + HEADER + SPARE, PAGE) != end
  }

  // The heap cut back to the first page boundary at or after the last block.
  function Trimmed(bs: seq<Block>, end: nat, k: nat): (seq<Block>, nat)
    requires k < |bs|
  {
    if !Trims(bs, end, k) then (bs, end) else
    var newEnd := AlignUp(bs[k].addr, PAGE);
    if bs[k].addr == newEnd then (bs[..k], newEnd)
    else (bs[k := bs[k].(size := (newEnd + WORD - bs[k].addr - HEADER) % WORD)], newEnd)
  }

  function Free(bs: seq<Block>, end: nat, i: nat): (seq<Block>, nat)
    requires i < |bs|
  {
    var (bs', k) := Release(bs, i);
    Trimmed(bs', end, k)
  }

  // ----- krealloc -----

  predicate FreeNext(bs: seq<Block>, i: nat) { i + 1 < |bs| && !bs[i + 1].used }

  // Shrinking with a free successor: its header moves down and its size grows, but the block keeps its own size.
  function ShiftNext(bs: seq<Block>, i: nat, size: nat): seq<Block>
    requires i + 1 < |bs| && size <= bs[i].size
  {
    bs[i + 1 := Block(bs[i].addr + HEADER + size, bs[i + 1].size + (bs[i].size - size), false)]
  }

  // Shrinking otherwise: the tail is split off if it can hold a header and a spare unit.
  function CutTail(bs: seq<Block>, i: nat, size: nat): seq<Block>
    requires i < |bs| && size <= bs[i].size
  {
    if bs[i].size - size >= HEADER + SPARE then SplitAt(bs, i, size) else bs
  }

  // Growing in place: the successor's size and header are taken for the whole of the new size.
  function SwallowNext(bs: seq<Block>, i: nat, size: nat): seq<Block>
    requires i + 1 < |bs| && bs[i + 1].size + HEADER >= size
  {
    var bs' := Swallowed(bs, i);
    if bs'[i].size > size + HEADER + SPARE then SplitAt(bs', i, size) else bs'
  }

  function Swallowed(bs: seq<Block>, i: nat): (bs': seq<Block>)
    requires i + 1 < |bs|
    ensures |bs'| == |bs| - 1
  {
    bs[..i] + [bs[i].(size := bs[i + 1].size + HEADER)] + bs[i + 2..]
  }

  datatype Path = Shift | Cut | Keep | Swallow | Move

  // Which way krealloc of block `i` to an aligned size goes.
  function PathOf(bs: seq<Block>, i: nat, size: nat): Path
    requires i < |bs|
  {
    if size < bs[i].size then (if FreeNext(bs, i) then Shift else Cut)
    else if size == bs[i].size then Keep
    else if FreeNext(bs, i) && bs[i + 1].size + HEADER >= size then Swallow
    else Move
  }

  // ----- what stays allocated -----

  predicate InUse(bs: seq<Block>, b: Block) { b.used && b in bs }

  /** Rounding up gives the next multiple, unless it would not fit into 64 bits: then the request becomes 0. */
  lemma AlignUpRounds(a: nat, align: nat)
    requires align in {UNIT, PAGE} && a < WORD
    ensures AlignUp(a, align) % align == 0
    ensures a <= AlignUp(a, align) <==> a <= WORD - align
    ensures a <= WORD - align ==> AlignUp(a, align) < a + align
    ensures a > WORD - align ==> AlignUp(a, align) == 0
  {
    if align == UNIT { RoundsUnit(a); } else { RoundsPage(a); }
  }

  lemma Wraps(a: nat)
    requires a <= WORD
    ensures a % WORD == if a == WORD then 0 else a
  {}

  lemma Unwrapped(a: nat)
    requires 0 < a < WORD
    ensures (a + WORD - 1) % WORD == a - 1
  {}

  lemma RoundsUnit(a: nat)
    requires a < WORD
    ensures var r := AlignUp(a, UNIT); r % UNIT == 0 && (if a > WORD - UNIT then r == 0 else a <= r < a + UNIT)
  {
    hide AlignDown;
    var b := if a == 0 then WORD - 1 else a - 1;
    if a > 0 { Unwrapped(a); }
    UnitAfter(b);
    Wraps(AlignDown(b, UNIT) + UNIT);
  }

  lemma RoundsPage(a: nat)
    requires a < WORD
    ensures var r := AlignUp(a, PAGE); r % PAGE == 0 && (if a > WORD - PAGE then r == 0 else a <= r < a + PAGE)
  {
    hide AlignDown;
    var b := if a == 0 then WORD - 1 else a - 1;
    if a > 0 { Unwrapped(a); }
    PageAfter(b);
    Wraps(AlignDown(b, PAGE) + PAGE);
  }

  lemma UnitAfter(a: nat)
    requires a < WORD
    ensures var r := AlignDown(a, UNIT) + UNIT;
            r % UNIT == 0 && a < r <= a + UNIT && r <= WORD && (a >= WORD - UNIT <==> r == WORD)
  {}

  lemma PageAfter(a: nat)
    requires a < WORD
    ensures var r := AlignDown(a, PAGE) + PAGE;
            r % PAGE == 0 && a < r <= a + PAGE && r <= WORD && (a >= WORD - PAGE <==> r == WORD)
  {}

  lemma SplitKeeps(start: nat, bs: seq<Block>, end: nat, i: nat, size: nat)
    requires Tiled(start, bs, end) && Aligned(bs) && i < |bs| && size % UNIT == 0 && size + HEADER <= bs[i].size
    ensures var bs' := SplitAt(bs, i, size);
            && Tiled(start, bs', end) && Aligned(bs') && |bs'| == |bs| + 1
            && bs'[i] == bs[i].(size := size) && !bs'[i + 1].used
            && (forall k | 0 <= k < i :: bs'[k] == bs[k])
            && (forall k | i + 1 < k < |bs'| :: bs'[k] == bs[k - 1])
  {
    hide SplitAt;
    SplitShape(bs, i, size);
    var bs' := SplitAt(bs, i, size);
    assert (bs[i].size - (size + HEADER)) % UNIT == 0;
    forall k | 0 <= k < |bs'| - 1 ensures bs'[k + 1].addr == End(bs'[k]) {
      assert k > i + 1 ==> bs[k].addr == End(bs[k - 1]);
    }
  }

  lemma SplitShape(bs: seq<Block>, i: nat, size: nat)
    requires i < |bs| && size + HEADER <= bs[i].size
    ensures var bs' := SplitAt(bs, i, size);
            && |bs'| == |bs| + 1
            && bs'[i] == bs[i].(size := size)
            && bs'[i + 1] == Block(bs[i].addr + HEADER + size, bs[i].size - (size + HEADER), false)
            && (forall k | 0 <= k < i :: bs'[k] == bs[k])
            && (forall k | i + 1 < k < |bs'| :: bs'[k] == bs[k - 1])
  {}

  lemma TakeKeepsValid(start: nat, bs: seq<Block>, end: nat, i: nat, size: nat)
    requires Tiled(start, bs, end) && Aligned(bs) && size % UNIT == 0
    requires i < |bs| && !bs[i].used && size <= bs[i].size
    requires forall k | 0 <= k < |bs| - 1 && k != i && k + 1 != i :: bs[k].used || bs[k + 1].used
    requires i + 1 < |bs| ==> bs[i + 1].used
    ensures var bs' := Take(bs, i, size);
            && Tiled(start, bs', end) && Aligned(bs') && Coalesced(bs')
            && i < |bs'| && bs'[i].used && bs'[i].addr == bs[i].addr && bs'[i].size >= size
            && (forall b :: InUse(bs', b) <==> InUse(bs, b) || b == bs'[i])
  {
    hide SplitAt;
    var taken := bs[i := bs[i].(used := true)];
    assert Tiled(start, taken, end) && Aligned(taken);
    if bs[i].size > size + HEADER + SPARE {
      SplitKeeps(start, taken, end, i, size);
    }
    forall c ensures InUse(Take(bs, i, size), c) <==> InUse(bs, c) || c == Take(bs, i, size)[i] {
      TakeInUse(bs, i, size, c);
    }
  }

  lemma TakeInUse(bs: seq<Block>, i: nat, size: nat, c: Block)
    requires i < |bs| && !bs[i].used && size <= bs[i].size
    ensures InUse(Take(bs, i, size), c) <==> InUse(bs, c) || c == Take(bs, i, size)[i]
  {
    var bs' := Take(bs, i, size);
    var m := if bs[i].size > size + HEADER + SPARE then 1 else 0;
    if InUse(bs, c) {
      var k :| 0 <= k < |bs| && bs[k] == c;
      assert bs'[if k < i then k else k + m] == c;
    }
    if InUse(bs', c) {
      var k :| 0 <= k < |bs'| && bs'[k] == c;
      assert k < i ==> bs[k] == c;
      assert k > i + m ==> bs[k - m] == c;
    }
  }

  /** kmalloc keeps the heap valid, takes a block of at least the requested size and leaves all others in use alone. */
  lemma AllocKeepsValid(start: nat, bs: seq<Block>, end: nat, size: nat)
    requires Valid(start, bs, end) && size % UNIT == 0 && !SumWraps(size)
    requires RoomToGrow(bs, end, size)
    ensures var (bs', end', i) := Alloc(bs, end, size);
            && Valid(start, bs', end')
            && i < |bs'| && bs'[i].used && bs'[i].size >= size
            && !InUse(bs, bs'[i])
            && (forall b :: InUse(bs', b) <==> InUse(bs, b) || b == bs'[i])
  {
    var i := FirstFreeFit(bs, size);
    FreshBlock(start, bs, end, size);
    if i < |bs| {
      TakeKeepsValid(start, bs, end, i, size);
    } else {
      hide Take, InUse, PagesFor, FirstFreeFit;
      TakeGrown(start, bs, end, size);
    }
  }

  lemma TakeGrown(start: nat, bs: seq<Block>, end: nat, size: nat)
    requires Valid(start, bs, end) && size % UNIT == 0 && !SumWraps(size)
    ensures |bs| < |Grown(bs, end, PagesFor(size))| && Grown(bs, end, PagesFor(size))[|bs|].size >= size
    ensures var bs' := Take(Grown(bs, end, PagesFor(size)), |bs|, size);
            && var end' := end + PAGE * PagesFor(size);
            && Tiled(start, bs', end') && Aligned(bs') && Coalesced(bs') && end' % PAGE == 0
            && |bs| < |bs'| && bs'[|bs|].used && bs'[|bs|].size >= size
            && (forall b :: InUse(bs', b) <==> InUse(bs, b) || b == bs'[|bs|])
  {
    hide Take, InUse, PagesFor;
    PagesSuffice(size);
    GrownKeepsTiled(start, bs, end, PagesFor(size));
    TakeKeepsValid(start, Grown(bs, end, PagesFor(size)), end + PAGE * PagesFor(size), |bs|, size);
    GrownInUse(bs, end, PagesFor(size));
  }

  // The sums of a header and a size that kmalloc makes for a block it has found do not wrap.
  lemma NoSumWraps(start: nat, bs: seq<Block>, end: nat, i: nat, size: nat)
    requires Tiled(start, bs, end) && 0 < start && start % PAGE == 0 && end < WORD && i < |bs| && size <= bs[i].size
    ensures size + HEADER + SPARE < WORD
  {
    if i > 0 { AddressesRise(start, bs, end, 0, i); }
    if i < |bs| - 1 { AddressesRise(start, bs, end, i, |bs| - 1); }
  }

  /**
   kmalloc wastes little: it takes the block it found, or one new block of as many pages as a header and the request
   need, one more if they fill them. The block is cut to the request unless at most a header and 32 bytes would be
   left over, and what is cut off is a free block.
  */
  lemma AllocOutcome(start: nat, bs: seq<Block>, end: nat, size: nat)
    requires Valid(start, bs, end) && size % UNIT == 0 && !SumWraps(size)
    ensures var (bs', end', j) := Alloc(bs, end, size);
            var grows := forall k | 0 <= k < |bs| :: bs[k].used || bs[k].size < size;
            && j <= |bs| && (grows <==> j == |bs|) && bs'[..j] == bs[..j]
            && (!grows ==> end' == end && forall k | 0 <= k < j :: bs[k].used || bs[k].size < size)
            && (grows ==> end' % PAGE == 0 && end' - end - PAGE <= size + HEADER < end' - end)
            && var b := if grows then Block(end, end' - end - HEADER, false) else bs[j];
               var after := if grows then [] else bs[j + 1..];
               if b.size <= size + HEADER + SPARE then bs' == bs[..j] + [b.(used := true)] + after
               else bs' == bs[..j] + [Block(b.addr, size, true),
                                      Block(b.addr + HEADER + size, b.size - size - HEADER, false)] + after
  {
    hide Tiled, Aligned, Coalesced, Take;
    var j := FirstFreeFit(bs, size);
    if j < |bs| {
      TakeIs(bs, j, size);
    } else {
      PagesSuffice(size);
      PagesBounds(end, size);
      var grown := Grown(bs, end, PagesFor(size));
      TakeIs(grown, j, size);
      assert grown[..j] == bs && grown[j + 1..] == [];
    }
  }

  lemma TakeIs(bs: seq<Block>, j: nat, size: nat)
    requires j < |bs| && size <= bs[j].size
    ensures var b := bs[j];
            Take(bs, j, size) == bs[..j] + (
              if b.size <= size + HEADER + SPARE then [b.(used := true)] else
              [Block(b.addr, size, true), Block(b.addr + HEADER + size, b.size - size - HEADER, false)]) + bs[j + 1..]
  {
    var taken := bs[j := bs[j].(used := true)];
    assert taken[..j] == bs[..j] && taken[j + 1..] == bs[j + 1..];
  }

  lemma PagesBounds(end: nat, size: nat)
    requires !SumWraps(size)
    ensures PAGE * (PagesFor(size) - 1) <= size + HEADER < PAGE * PagesFor(size)
    ensures (end + PAGE * PagesFor(size)) % PAGE == end % PAGE
  {}

  // No block of a valid heap comes within a page of 2^64 bytes.
  lemma SizesBelow(start: nat, bs: seq<Block>, end: nat, i: nat)
    requires Valid(start, bs, end) && 0 < start && i < |bs|
    ensures bs[i].size + PAGE + HEADER < WORD
  {
    AddressAligned(start, bs, end, i);
  }

  /** What is granted is the size of the block that is taken, and all of its page where the header sum wraps. */
  lemma GrantedIsSize(start: nat, bs: seq<Block>, end: nat, size: nat)
    requires Valid(start, bs, end) && 0 < start && size % UNIT == 0 && size < WORD && RoomToGrow(bs, end, size)
    ensures var (bs', end', i) := Alloc(bs, end, size);
            && i < |bs'| && bs'[i].size == Granted(bs, end, size)
            && (SumWraps(size) ==> i == |bs| && bs'[i].addr == end && end' == end + PAGE)
  {
    hide Valid;
    var i := FirstFreeFit(bs, size);
    if i < |bs| {
      SizesBelow(start, bs, end, i);
    } else if SumWraps(size) {
      LastUnits(size);
    } else {
      PagesSuffice(size);
    }
  }

  /**
   kmalloc grants a request in full exactly up to 2^64 - 48 bytes. The 32 next larger ones get a page, because the
   sum with the header wraps; the others are rounded to 0.
  */
  lemma GrantedInFullIff(start: nat, bs: seq<Block>, end: nat, requested: nat)
    requires Valid(start, bs, end) && 0 < start && requested < WORD
    requires RoomToGrow(bs, end, AlignUp(requested, UNIT))
    ensures Granted(bs, end, AlignUp(requested, UNIT)) >= requested <==> requested <= WORD - 48
  {
    hide AlignUp;
    var size := AlignUp(requested, UNIT);
    AlignUpRounds(requested, UNIT);
    var i := FirstFreeFit(bs, size);
    if i < |bs| { SizesBelow(start, bs, end, i); }
    if SumWraps(size) {
      LastUnits(size);
    } else {
      PagesSuffice(size);
    }
  }

  /** Adding a header to the rounded size wraps for 32 requests, and for these the block's own header is overwritten. */
  lemma HeaderSumWrapsIff(requested: nat, addr: nat)
    requires requested < WORD && addr + HEADER + SPARE < WORD
    ensures var size := AlignUp(requested, UNIT);
            && (SumWraps(size) <==> WORD - 48 < requested <= WORD - UNIT)
            && (SumWraps(size) ==>
                  && PagesFor(size) == 1
                  && PAGE - HEADER > (size + HEADER + SPARE) % WORD
                  && addr <= (addr + HEADER + size) % WORD < addr + HEADER)
  {
    hide AlignUp;
    AlignUpRounds(requested, UNIT);
    var size := AlignUp(requested, UNIT);
    if SumWraps(size) {
      LastUnits(size);
      assert (addr + HEADER + size) % WORD == addr + HEADER + size - WORD;
    }
  }

  lemma LastUnits(size: nat)
    requires size % UNIT == 0 && WORD - HEADER <= size < WORD
    ensures size in {WORD - HEADER, WORD - UNIT}
  {}

  lemma PagesSuffice(size: nat)
    requires !SumWraps(size)
    ensures PagesFor(size) > 0 && PAGE * PagesFor(size) - HEADER >= size
  {}

  lemma GrownInUse(bs: seq<Block>, end: nat, pages: nat)
    requires pages > 0
    ensures forall b :: InUse(Grown(bs, end, pages), b) <==> InUse(bs, b)
  {}

  lemma GrownKeepsTiled(start: nat, bs: seq<Block>, end: nat, pages: nat)
    requires Tiled(start, bs, end) && Aligned(bs) && pages > 0
    ensures Tiled(start, Grown(bs, end, pages), end + PAGE * pages) && Aligned(Grown(bs, end, pages))
    ensures (end + PAGE * pages) % PAGE == end % PAGE
  {
    PagesAligned(pages);
  }

  lemma PagesAligned(pages: nat)
    requires pages > 0
    ensures (PAGE * pages - HEADER) % UNIT == 0
  {
    assert PAGE * pages - HEADER == UNIT * (256 * pages - 2);
  }

  // Block addresses rise, so no two blocks start at the same one.
  lemma {:induction false} AddressesRise(start: nat, bs: seq<Block>, end: nat, i: nat, j: nat)
    requires Tiled(start, bs, end) && i < j < |bs|
    ensures End(bs[i]) <= bs[j].addr
    decreases j
  {
    if i + 1 < j {
      AddressesRise(start, bs, end, i, j - 1);
    }
  }

  lemma FreshBlock(start: nat, bs: seq<Block>, end: nat, size: nat)
    requires Valid(start, bs, end)
    ensures var (bs', _, i) := Alloc(bs, end, size);
            !InUse(bs, bs'[i]) && forall k | 0 <= k < |bs| && bs[k].used :: bs[k].addr != bs'[i].addr
  {
    var (bs', _, i) := Alloc(bs, end, size);
    forall k | 0 <= k < |bs| && bs[k].used ensures bs[k].addr != bs'[i].addr {
      if i < |bs| {
        if k < i { AddressesRise(start, bs, end, k, i); } else { AddressesRise(start, bs, end, i, k); }
      } else if k < |bs| - 1 {
        AddressesRise(start, bs, end, k, |bs| - 1);
      }
    }
  }

  // ----- freeing -----

  lemma AbsorbKeeps(start: nat, bs: seq<Block>, end: nat, i: nat)
    requires Tiled(start, bs, end) && Aligned(bs) && i + 1 < |bs| && !bs[i].used && !bs[i + 1].used
    ensures var bs' := Absorb(bs, i);
            Tiled(start, bs', end) && Aligned(bs') && |bs'| == |bs| - 1
            && !bs'[i].used && bs'[i].addr == bs[i].addr
            && (forall k | 0 <= k < i :: bs'[k] == bs[k])
            && (forall k | i < k < |bs'| :: bs'[k] == bs[k + 1])
            && (forall b :: InUse(bs', b) <==> InUse(bs, b))
  {
    var bs' := Absorb(bs, i);
    assert forall k | 0 <= k < i :: bs'[k] == bs[k];
    assert forall k | i < k < |bs'| :: bs'[k] == bs[k + 1];
    forall b ensures InUse(bs', b) <==> InUse(bs, b) {
      AbsorbInUse(bs, i, b);
    }
  }

  lemma AbsorbInUse(bs: seq<Block>, i: nat, b: Block)
    requires i + 1 < |bs| && !bs[i].used && !bs[i + 1].used
    ensures InUse(Absorb(bs, i), b) <==> InUse(bs, b)
  {
    var bs' := Absorb(bs, i);
    if InUse(bs, b) {
      var k :| 0 <= k < |bs| && bs[k] == b;
      assert bs'[if k < i then k else k - 1] == b;
    }
    if InUse(bs', b) {
      var k :| 0 <= k < |bs'| && bs'[k] == b;
      assert bs[if k < i then k else k + 1] == b;
    }
  }

  // Block `i` freed and joined with a free predecessor: the first half of Release.
  function ReleaseBack(bs: seq<Block>, i: nat): (r: (seq<Block>, nat))
    requires i < |bs|
    ensures r.1 < |r.0|
  {
    var bs0 := bs[i := bs[i].(used := false)];
    if i > 0 && JoinsNext(bs0, i - 1) then (Absorb(bs0, i - 1), i - 1) else (bs0, i)
  }

  // Only block `k` and its successor may both be free.
  ghost predicate CoalescedBut(bs: seq<Block>, k: nat) {
    forall j | 0 <= j < |bs| - 1 && j != k :: bs[j].used || bs[j + 1].used
  }

  lemma ReleaseBackKeeps(start: nat, bs: seq<Block>, end: nat, i: nat)
    requires Tiled(start, bs, end) && Aligned(bs) && Coalesced(bs) && i < |bs| && bs[i].used
    ensures var (bs1, k) := ReleaseBack(bs, i);
            && Tiled(start, bs1, end) && Aligned(bs1) && CoalescedBut(bs1, k)
            && !bs1[k].used && bs1[k].addr <= bs[i].addr
            && (forall b :: InUse(bs1, b) <==> InUse(bs, b) && b != bs[i])
  {
    var bs0 := bs[i := bs[i].(used := false)];
    forall b ensures InUse(bs0, b) <==> InUse(bs, b) && b != bs[i] {
      FreedInUse(start, bs, end, i, b);
    }
    assert Tiled(start, bs0, end);
    if i > 0 && JoinsNext(bs0, i - 1) {
      AbsorbKeeps(start, bs0, end, i - 1);
    }
  }

  /** Freeing a block and joining it with its neighbours keeps the tiling and leaves no two free blocks adjacent. */
  lemma ReleaseKeeps(start: nat, bs: seq<Block>, end: nat, i: nat)
    requires Tiled(start, bs, end) && Aligned(bs) && Coalesced(bs) && i < |bs| && bs[i].used
    ensures var (bs', k) := Release(bs, i);
            && Tiled(start, bs', end) && Aligned(bs') && Coalesced(bs')
            && !bs'[k].used && bs'[k].addr <= bs[i].addr
            && (forall b :: InUse(bs', b) <==> InUse(bs, b) && b != bs[i])
  {
    hide InUse, Absorb;
    ReleaseBackKeeps(start, bs, end, i);
    var (bs1, k) := ReleaseBack(bs, i);
    if JoinsNext(bs1, k) {
      AbsorbKeeps(start, bs1, end, k);
    }
  }

  lemma FreedInUse(start: nat, bs: seq<Block>, end: nat, i: nat, b: Block)
    requires Tiled(start, bs, end) && i < |bs| && bs[i].used
    ensures InUse(bs[i := bs[i].(used := false)], b) <==> InUse(bs, b) && b != bs[i]
  {
    var bs0 := bs[i := bs[i].(used := false)];
    if InUse(bs, b) && b != bs[i] {
      var k :| 0 <= k < |bs| && bs[k] == b;
      assert bs0[k] == b;
    }
    if InUse(bs0, b) {
      var k :| 0 <= k < |bs0| && bs0[k] == b;
      assert k != i && bs[k] == b;
      if k < i { AddressesRise(start, bs, end, k, i); } else { AddressesRise(start, bs, end, i, k); }
    }
  }

  lemma {:induction false} AddressAligned(start: nat, bs: seq<Block>, end: nat, i: nat)
    requires Tiled(start, bs, end) && Aligned(bs) && start % PAGE == 0 && i < |bs|
    ensures bs[i].addr % UNIT == 0 && bs[i].addr >= start && End(bs[i]) <= end
    decreases i
  {
    if i > 0 {
      AddressAligned(start, bs, end, i - 1);
    }
    if i < |bs| - 1 {
      AddressesRise(start, bs, end, i, |bs| - 1);
    }
  }

  // The block that block `i` is part of after kfree, and the last one that is joined to it.
  function FirstJoined(bs: seq<Block>, i: nat): (k: nat)
    requires i < |bs|
    ensures k <= i
  {
    if i > 0 && !bs[i - 1].used then i - 1 else i
  }

  function LastJoined(bs: seq<Block>, i: nat): nat { if FreeNext(bs, i) then i + 1 else i }

  // The tail trim wraps the size of the last block: it begins 16 bytes before a page boundary and reaches over more
  // than the page behind that boundary.
  predicate Underflows(bs: seq<Block>, end: nat, i: nat)
    requires i < |bs|
  {
    var k := FirstJoined(bs, i);
    k > 0 && LastJoined(bs, i) == |bs| - 1 && bs[k].addr % PAGE == PAGE - UNIT && end > bs[k].addr + UNIT + PAGE
  }

  lemma UnderflowsIff(start: nat, bs: seq<Block>, end: nat, i: nat)
    requires Valid(start, bs, end) && i < |bs| && bs[i].used
    ensures var (bs', k) := Release(bs, i);
            Underflows(bs, end, i) <==> Trims(bs', end, k) && bs'[k].addr % PAGE == PAGE - UNIT
  {
    hide AlignUp;
    var (bs', k) := Release(bs, i);
    ReleaseShape(start, bs, end, i);
    AddressAligned(start, bs, end, k);
    if bs[k].addr % PAGE == PAGE - UNIT {
      SecondBoundary(bs[k].addr, end);
    }
  }

  lemma ReleaseShape(start: nat, bs: seq<Block>, end: nat, i: nat)
    requires Valid(start, bs, end) && i < |bs| && bs[i].used
    ensures var (bs', k) := Release(bs, i);
            && k == FirstJoined(bs, i) && bs'[k].addr == bs[k].addr
            && (k == |bs'| - 1 <==> LastJoined(bs, i) == |bs| - 1)
  {}

  lemma SecondBoundary(addr: nat, end: nat)
    requires addr % PAGE == PAGE - UNIT && addr + HEADER <= end < WORD && end % PAGE == 0
    ensures AlignUp(addr + HEADER + SPARE, PAGE) != end <==> end > addr + UNIT + PAGE
  {
    hide AlignUp;
    var q, e := addr / PAGE, end / PAGE;
    assert end == PAGE * e && e >= q + 2;
    AlignUpRounds(addr + HEADER + SPARE, PAGE);
  }

  lemma TrimKeepsIff(start: nat, bs: seq<Block>, end: nat, k: nat)
    requires Valid(start, bs, end) && k < |bs| && !bs[k].used
    ensures var (bs', end') := Trimmed(bs, end, k);
            && (Valid(start, bs', end') <==> !(Trims(bs, end, k) && bs[k].addr % PAGE == PAGE - UNIT))
            && (forall b :: InUse(bs', b) <==> InUse(bs, b))
            && end' <= end
  {
    hide AlignUp, InUse, Tiled, Aligned, Coalesced;
    AddressAligned(start, bs, end, k);
    if Trims(bs, end, k) {
      NextBoundary(bs[k].addr, end);
      var newEnd := AlignUp(bs[k].addr, PAGE);
      if bs[k].addr == newEnd {
        DropKeeps(start, bs, end);
      } else {
        WrappedSize(bs[k].addr, newEnd);
        ShortenedKeepsIff(start, bs, end, (newEnd + WORD - bs[k].addr - HEADER) % WORD, newEnd);
      }
    }
    TrimmedKeepsUse(bs, end, k);
  }

  lemma ShortenedKeepsIff(start: nat, bs: seq<Block>, end: nat, size: nat, newEnd: nat)
    requires Valid(start, bs, end) && newEnd % PAGE == 0 && newEnd < WORD
    ensures var k := |bs| - 1;
            Valid(start, bs[k := bs[k].(size := size)], newEnd) <==>
            Payload(bs[k]) + size == newEnd && size % UNIT == 0
  {
    var k := |bs| - 1;
    assert bs[k := bs[k].(size := size)][k].size == size;
  }

  lemma TrimmedKeepsUse(bs: seq<Block>, end: nat, k: nat)
    requires k < |bs| && !bs[k].used
    ensures forall b :: InUse(Trimmed(bs, end, k).0, b) <==> InUse(bs, b)
  {
    if Trims(bs, end, k) {
      forall b ensures InUse(Trimmed(bs, end, k).0, b) <==> InUse(bs, b) {
        TrimmedInUse(bs, end, k, b);
      }
    }
  }

  lemma DropKeeps(start: nat, bs: seq<Block>, end: nat)
    requires Valid(start, bs, end) && |bs| > 1 && bs[|bs| - 1].addr % PAGE == 0
    ensures Valid(start, bs[..|bs| - 1], bs[|bs| - 1].addr)
  {}

  lemma WrappedSize(addr: nat, newEnd: nat)
    requires addr < newEnd < WORD
    ensures (newEnd + WORD - addr - HEADER) % WORD ==
            if newEnd - addr >= HEADER then newEnd - addr - HEADER else newEnd + WORD - addr - HEADER
  {}

  // Where the first page boundary at or after an aligned address lies.
  lemma NextBoundary(addr: nat, end: nat)
    requires addr % UNIT == 0 && addr + HEADER <= end < WORD && end % PAGE == 0
    ensures var newEnd := AlignUp(addr, PAGE);
            && addr <= newEnd <= end && newEnd < WORD && newEnd % PAGE == 0
            && (newEnd - addr == UNIT <==> addr % PAGE == PAGE - UNIT)
            && (newEnd != addr && addr % PAGE != PAGE - UNIT ==> newEnd - addr >= HEADER && (newEnd - addr) % UNIT == 0)
  {
    hide AlignUp;
    RoundsPage(addr);
    var r, q, t := AlignUp(addr, PAGE), addr / PAGE, addr % PAGE / UNIT;
    InUnits(addr);
    assert r == PAGE * (r / PAGE) && end == PAGE * (end / PAGE);
    BoundaryInUnits(q, t, r / PAGE, end / PAGE);
  }

  lemma InUnits(addr: nat)
    requires addr % UNIT == 0
    ensures addr == PAGE * (addr / PAGE) + UNIT * (addr % PAGE / UNIT) && addr % PAGE == UNIT * (addr % PAGE / UNIT)
  {}

  // The same with all addresses in pages and units.
  lemma BoundaryInUnits(q: nat, t: nat, r: nat, e: nat)
    requires t < PAGE / UNIT && PAGE * q + UNIT * t <= PAGE * r < PAGE * q + UNIT * t + PAGE
    requires PAGE * q + UNIT * t + HEADER <= PAGE * e
    ensures r == (if t == 0 then q else q + 1) && r <= e
  {}

  lemma TrimmedInUse(bs: seq<Block>, end: nat, k: nat, b: Block)
    requires k == |bs| - 1 && !bs[k].used
    ensures InUse(Trimmed(bs, end, k).0, b) <==> InUse(bs, b)
  {
    var bs' := Trimmed(bs, end, k).0;
    if InUse(bs, b) {
      var j :| 0 <= j < |bs| && bs[j] == b;
      assert j != k && bs'[j] == b;
    }
    if InUse(bs', b) {
      var j :| 0 <= j < |bs'| && bs'[j] == b;
      assert j != k && bs[j] == b;
    }
  }

  /** kfree keeps the heap valid exactly unless the tail trim underflows; only the freed block leaves use. */
  lemma FreeKeepsValidIff(start: nat, bs: seq<Block>, end: nat, i: nat)
    requires Valid(start, bs, end) && i < |bs| && bs[i].used
    ensures var (bs', end') := Free(bs, end, i);
            && (Valid(start, bs', end') <==> !Underflows(bs, end, i))
            && (forall b :: InUse(bs', b) <==> InUse(bs, b) && b != bs[i])
            && end' <= end
  {
    ReleaseKeeps(start, bs, end, i);
    UnderflowsIff(start, bs, end, i);
    var (bs', k) := Release(bs, i);
    TrimKeepsIff(start, bs', end, k);
  }

  // `b` is the first page boundary at or above `a`.
  predicate FirstBoundary(a: nat, b: nat) { b % PAGE == 0 && a <= b < a + PAGE }

  // Block `i` and its free neighbours as one free block.
  function Joined(bs: seq<Block>, i: nat): Block
    requires i < |bs|
  {
    var k, l := FirstJoined(bs, i), LastJoined(bs, i);
    Block(bs[k].addr, (if k < i then bs[k].size + HEADER else 0) + bs[i].size
          + (if i < l then HEADER + bs[l].size else 0), false)
  }

  // The tail is cut: the joined block is not the only one, ends the heap, and the heap goes beyond the first page
  // boundary that would leave it a header and a spare unit.
  predicate TailCut(bs: seq<Block>, end: nat, i: nat)
    requires i < |bs|
  {
    var k := FirstJoined(bs, i);
    k > 0 && LastJoined(bs, i) == |bs| - 1 && !FirstBoundary(bs[k].addr + HEADER + SPARE, end)
  }

  /**
   What kfree makes of the heap. The freed block is joined with its free neighbours; blocks before and behind stay.
   If the tail is cut, the heap ends at the first page boundary at or above the joined block, and nothing of the
   block remains if it begins there.
  */
  lemma FreeOutcome(start: nat, bs: seq<Block>, end: nat, i: nat)
    requires Valid(start, bs, end) && i < |bs| && bs[i].used
    ensures var (bs', end') := Free(bs, end, i);
            var k, l, b := FirstJoined(bs, i), LastJoined(bs, i), Joined(bs, i);
            && (!TailCut(bs, end, i) ==> end' == end && bs' == bs[..k] + [b] + bs[l + 1..])
            && (TailCut(bs, end, i) ==> FirstBoundary(b.addr, end')
                                        && bs' == bs[..k] + if b.addr == end' then [] else
                                           [b.(size := (end' + WORD - b.addr - HEADER) % WORD)])
  {
    hide AlignUp, Release;
    var k, l := FirstJoined(bs, i), LastJoined(bs, i);
    var joined := bs[..k] + [Joined(bs, i)] + bs[l + 1..];
    ReleaseIs(bs, i);
    AddressAligned(start, bs, end, k);
    AlignUpRounds(bs[k].addr, PAGE);
    BoundaryIs(bs[k].addr + HEADER + SPARE, end);
    assert joined[..k] == bs[..k];
    if l == |bs| - 1 {
      assert joined[k := joined[k].(size := 0)][..k] == bs[..k];
    }
  }

  lemma ReleaseIs(bs: seq<Block>, i: nat)
    requires i < |bs| && bs[i].used && (i > 0 ==> bs[i].addr == End(bs[i - 1]))
    requires i + 1 < |bs| ==> bs[i + 1].addr == End(bs[i])
    ensures var k, l := FirstJoined(bs, i), LastJoined(bs, i);
            Release(bs, i) == (bs[..k] + [Joined(bs, i)] + bs[l + 1..], k)
  {
    hide ReleaseBack, Absorb, JoinsNext;
    var k := FirstJoined(bs, i);
    ReleaseBackIs(bs, i);
    var b := Block(bs[k].addr, (if k < i then bs[k].size + HEADER else 0) + bs[i].size, false);
    var bs1 := bs[..k] + [b] + bs[i + 1..];
    if i + 1 < |bs| {
      assert bs1 == bs[..k] + [b] + ([bs[i + 1]] + bs[i + 2..]);
      JoinAt(bs[..k], b, bs[i + 1], bs[i + 2..]);
    } else {
      JoinsNone(bs1, k);
    }
  }

  lemma ReleaseBackIs(bs: seq<Block>, i: nat)
    requires i < |bs| && bs[i].used && (i > 0 ==> bs[i].addr == End(bs[i - 1]))
    ensures var k := FirstJoined(bs, i);
            var b := Block(bs[k].addr, (if k < i then bs[k].size + HEADER else 0) + bs[i].size, false);
            ReleaseBack(bs, i) == (bs[..k] + [b] + bs[i + 1..], k)
  {
    hide Absorb, JoinsNext;
    var freed := bs[i].(used := false);
    var bs0 := bs[i := freed];
    assert bs0 == bs[..i] + [freed] + bs[i + 1..];
    if i > 0 {
      assert bs0 == bs[..i - 1] + [bs[i - 1]] + ([freed] + bs[i + 1..]);
      JoinAt(bs[..i - 1], bs[i - 1], freed, bs[i + 1..]);
    }
  }

  // Whether two blocks in a row join, and what becomes of them.
  lemma JoinAt(before: seq<Block>, b: Block, c: Block, after: seq<Block>)
    ensures var bs := before + [b] + ([c] + after);
            && (JoinsNext(bs, |before|) <==> !b.used && !c.used && End(b) == c.addr)
            && Absorb(bs, |before|) == before + [b.(size := b.size + HEADER + c.size)] + after
  {
    var bs := before + [b] + ([c] + after);
    assert bs[..|before|] == before && bs[|before| + 2..] == after;
  }

  lemma JoinsNone(bs: seq<Block>, k: nat)
    requires k + 1 == |bs|
    ensures !JoinsNext(bs, k)
  {}

  lemma BoundaryIs(a: nat, end: nat)
    requires a < 2 * WORD && 0 < end < WORD && end % PAGE == 0
    ensures a < WORD ==> (AlignUp(a, PAGE) == end <==> FirstBoundary(a, end))
  {
    if a < WORD {
      hide AlignUp;
      AlignUpRounds(a, PAGE);
      var r, e := AlignUp(a, PAGE) / PAGE, end / PAGE;
      assert end == PAGE * e;
    }
  }

  ghost predicate NoneInUse(bs: seq<Block>) { forall i | 0 <= i < |bs| :: !bs[i].used }

  /** With nothing in use the heap is one free block. */
  lemma AllFreeIsOneBlock(start: nat, bs: seq<Block>, end: nat)
    requires Valid(start, bs, end) && NoneInUse(bs)
    ensures |bs| == 1 && bs[0].addr == start && End(bs[0]) == end
  {
    SomeInUse(bs);
  }

  lemma SomeInUse(bs: seq<Block>)
    requires Coalesced(bs) && bs != []
    ensures |bs| == 1 || exists i :: 0 <= i < |bs| && bs[i].used
  {
    assert |bs| == 1 || bs[0].used || bs[1].used;
  }

  /** Blocks in use do not overlap, and their payloads are 16-byte aligned and inside the heap. */
  lemma PayloadsApart(start: nat, bs: seq<Block>, end: nat, i: nat, j: nat)
    requires Valid(start, bs, end) && i < j < |bs|
    ensures Payload(bs[i]) + bs[i].size <= bs[j].addr < Payload(bs[j])
    ensures Payload(bs[i]) % UNIT == 0 && Payload(bs[j]) + bs[j].size <= end
  {
    AddressesRise(start, bs, end, i, j);
    AddressAligned(start, bs, end, i);
    AddressAligned(start, bs, end, j);
  }

  // ----- resizing -----

  /** Shifting the successor's header leaves a gap in the list, always. */
  lemma ShiftBreaksTiling(start: nat, bs: seq<Block>, end: nat, i: nat, size: nat)
    requires Valid(start, bs, end) && i + 1 < |bs| && size < bs[i].size
    ensures !Tiled(start, ShiftNext(bs, i, size), end)
  {
    var bs' := ShiftNext(bs, i, size);
    assert bs'[i] == bs[i] && bs'[i + 1].addr != End(bs'[i]);
  }

  lemma CutKeepsValid(start: nat, bs: seq<Block>, end: nat, i: nat, size: nat)
    requires Valid(start, bs, end) && i < |bs| && bs[i].used && size < bs[i].size && size % UNIT == 0
        && !FreeNext(bs, i)
    ensures var bs' := CutTail(bs, i, size);
            && Valid(start, bs', end)
            && bs'[i].used && bs'[i].addr == bs[i].addr && bs'[i].size >= size
  {
    hide SplitAt;
    if bs[i].size - size >= HEADER + SPARE {
      SplitKeeps(start, bs, end, i, size);
    }
  }

  /** Growing over the successor keeps the tiling exactly when the block had no bytes of its own to forget. */
  lemma SwallowKeepsValidIff(start: nat, bs: seq<Block>, end: nat, i: nat, size: nat)
    requires Valid(start, bs, end) && i < |bs| && bs[i].used && size > bs[i].size && size % UNIT == 0
    requires FreeNext(bs, i) && bs[i + 1].size + HEADER >= size
    ensures Valid(start, SwallowNext(bs, i, size), end) <==> bs[i].size == 0
  {
    hide SplitAt, Swallowed;
    SwallowedTiledIff(start, bs, end, i);
    var bs' := Swallowed(bs, i);
    if bs'[i].size > size + HEADER + SPARE {
      if bs[i].size == 0 {
        SplitKeeps(start, bs', end, i, size);
      } else {
        SplitBack(start, bs', end, i, size);
      }
    }
  }

  lemma SwallowedTiledIff(start: nat, bs: seq<Block>, end: nat, i: nat)
    requires Valid(start, bs, end) && FreeNext(bs, i) && bs[i].used
    ensures var bs' := Swallowed(bs, i);
            && Aligned(bs') && Coalesced(bs') && bs'[i] == bs[i].(size := bs[i + 1].size + HEADER)
            && (i + 1 < |bs'| ==> bs'[i + 1].used)
            && (Tiled(start, bs', end) <==> bs[i].size == 0)
  {
    var bs' := Swallowed(bs, i);
    assert forall k | 0 <= k < i :: bs'[k] == bs[k];
    assert forall k | i < k < |bs'| :: bs'[k] == bs[k + 1];
    if i + 2 < |bs| {
      assert bs'[i + 1] == bs[i + 2] && bs[i + 2].addr == End(bs[i + 1]);
    }
  }

  // A gap behind a block stays when the block is cut.
  lemma SplitBack(start: nat, bs: seq<Block>, end: nat, i: nat, size: nat)
    requires i < |bs| && size + HEADER <= bs[i].size
    ensures Tiled(start, SplitAt(bs, i, size), end) ==> Tiled(start, bs, end)
  {
    var bs' := SplitAt(bs, i, size);
    assert bs'[i].addr == bs[i].addr && End(bs'[i + 1]) == End(bs[i]);
    assert forall k | 0 <= k < i :: bs'[k] == bs[k];
    assert forall k | i < k < |bs| :: bs'[k + 1] == bs[k];
  }

  // Where block `i` is after another one has been allocated.
  function IndexAfterAlloc(bs: seq<Block>, size: nat, i: nat): nat {
    var j := FirstFreeFit(bs, size);
    if j < i && j < |bs| && bs[j].size > size + HEADER + SPARE then i + 1 else i
  }

  lemma BlockAfterAlloc(bs: seq<Block>, end: nat, size: nat, i: nat)
    requires i < |bs| && bs[i].used
    ensures var (bs', _, _) := Alloc(bs, end, size);
            IndexAfterAlloc(bs, size, i) < |bs'| && bs'[IndexAfterAlloc(bs, size, i)] == bs[i]
  {}

  // The blocks after krealloc of block `i`; `found` is whether kmalloc finds memory if the block has to move.
  function Resized(bs: seq<Block>, end: nat, i: nat, size: nat, found: bool): (seq<Block>, nat)
    requires i < |bs| && bs[i].used
  {
    match PathOf(bs, i, size)
    case Shift => (ShiftNext(bs, i, size), end)
    case Cut => (CutTail(bs, i, size), end)
    case Keep => (bs, end)
    case Swallow => (SwallowNext(bs, i, size), end)
    case Move =>
      if !found then (bs, end) else
      var (bs', end', _) := Alloc(bs, end, size);
      BlockAfterAlloc(bs, end, size, i);
      Free(bs', end', IndexAfterAlloc(bs, size, i))
  }

  // The ways krealloc can go without harm.
  predicate ResizeSound(bs: seq<Block>, end: nat, i: nat, size: nat, found: bool)
    requires i < |bs| && bs[i].used
  {
    match PathOf(bs, i, size)
    case Shift => false
    case Cut => true
    case Keep => true
    case Swallow => bs[i].size == 0
    case Move => found ==> !MoveUnderflows(bs, end, i, size)
  }

  // The old block is freed after the new one is taken; its tail trim may underflow.
  predicate MoveUnderflows(bs: seq<Block>, end: nat, i: nat, size: nat)
    requires i < |bs| && bs[i].used
  {
    BlockAfterAlloc(bs, end, size, i);
    Underflows(Alloc(bs, end, size).0, Alloc(bs, end, size).1, IndexAfterAlloc(bs, size, i))
  }

  /** krealloc keeps the heap valid exactly when it goes one of these ways. */
  lemma ResizeKeepsValidIff(start: nat, bs: seq<Block>, end: nat, i: nat, size: nat, found: bool)
    requires Valid(start, bs, end) && i < |bs| && bs[i].used && size % UNIT == 0
    requires PathOf(bs, i, size) == Move && found ==> RoomToGrow(bs, end, size) && !SumWraps(size)
    ensures var (bs', end') := Resized(bs, end, i, size, found);
            Valid(start, bs', end') <==> ResizeSound(bs, end, i, size, found)
  {
    match PathOf(bs, i, size)
    case Shift => ShiftBreaksTiling(start, bs, end, i, size);
    case Cut => CutKeepsValid(start, bs, end, i, size);
    case Keep =>
    case Swallow => SwallowKeepsValidIff(start, bs, end, i, size);
    case Move =>
      if found {
        var (bs', end', _) := Alloc(bs, end, size);
        AllocKeepsValid(start, bs, end, size);
        BlockAfterAlloc(bs, end, size, i);
        FreeKeepsValidIff(start, bs', end', IndexAfterAlloc(bs, size, i));
      }
  }

  // What krealloc returns.
  function ResizedAt(bs: seq<Block>, end: nat, i: nat, size: nat, found: bool): nat
    requires i < |bs| && bs[i].used
  {
    if PathOf(bs, i, size) != Move then Payload(bs[i])
    else if !found then 0
    else var (bs', _, j) := Alloc(bs, end, size); TakenInRange(bs, end, size); Payload(bs'[j])
  }

  lemma TakenInRange(bs: seq<Block>, end: nat, size: nat)
    ensures var (bs', _, j) := Alloc(bs, end, size); j < |bs'|
  {}

  // A block in use with `size` bytes from `ptr` on.
  ghost predicate HasRoom(bs: seq<Block>, ptr: nat, size: nat) {
    exists b :: InUse(bs, b) && Payload(b) == ptr && b.size == size
  }

  // The bytes krealloc's caller gets if the result is not null.
  function ResizedRoom(bs: seq<Block>, end: nat, i: nat, size: nat): nat
    requires i < |bs| && bs[i].used
  {
    if PathOf(bs, i, size) != Move then Resized(bs, end, i, size, false).0[i].size else Granted(bs, end, size)
  }

  /**
   What shrinking makes of the heap. Before a free block, only that one's header moves down, and the block, which
   keeps its size, then overlaps it; otherwise the tail becomes a free block if it can hold a header and 32 bytes.
  */
  lemma ShrinkOutcome(start: nat, bs: seq<Block>, end: nat, i: nat, size: nat, found: bool)
    requires Valid(start, bs, end) && i < |bs| && bs[i].used && size < bs[i].size
    ensures var (bs', end') := Resized(bs, end, i, size, found);
            var cut := bs[i].size - size;
            && end' == end && ResizedAt(bs, end, i, size, found) == Payload(bs[i])
            && (FreeNext(bs, i) ==> bs' == bs[..i + 1] + [
              Block(bs[i + 1].addr - cut, bs[i + 1].size + cut, false)] + bs[i + 2..])
            && (!FreeNext(bs, i) && cut >= HEADER + SPARE ==> bs' == bs[..i] + [bs[i].(size := size),
                  Block(Payload(bs[i]) + size, cut - HEADER, false)] + bs[i + 1..])
            && (!FreeNext(bs, i) && cut < HEADER + SPARE ==> bs' == bs)
  {}

  /**
   What growing in place makes of it: the two blocks lose as many bytes as the first one had, and are cut where the
   request ends if that leaves more than a header and 32 bytes.
  */
  lemma GrowOutcome(start: nat, bs: seq<Block>, end: nat, i: nat, size: nat, found: bool)
    requires Valid(start, bs, end) && i < |bs| && bs[i].used && size > bs[i].size
    requires FreeNext(bs, i) && bs[i + 1].size + HEADER >= size
    ensures var (bs', end') := Resized(bs, end, i, size, found);
            var total := bs[i + 1].size + HEADER;
            && end' == end && ResizedAt(bs, end, i, size, found) == Payload(bs[i])
            && (total <= size + HEADER + SPARE ==> bs' == bs[..i] + [bs[i].(size := total)] + bs[i + 2..])
            && (total > size + HEADER + SPARE ==> bs' == bs[..i] + [bs[i].(size := size),
                  Block(Payload(bs[i]) + size, total - size - HEADER, false)] + bs[i + 2..])
  {}

  /** krealloc leaves the block where it is exactly if it need not grow, or the free block behind it is large enough. */
  lemma StaysIff(start: nat, bs: seq<Block>, end: nat, i: nat, size: nat)
    requires Valid(start, bs, end) && i < |bs| && bs[i].used && size % UNIT == 0
    ensures ResizedAt(bs, end, i, size, true) == Payload(bs[i]) <==>
            size <= bs[i].size || (FreeNext(bs, i) && bs[i + 1].size + HEADER >= size)
  {
    if PathOf(bs, i, size) == Move {
      FreshBlock(start, bs, end, size);
    }
  }

  lemma InPlaceKeepsOthers(bs: seq<Block>, end: nat, i: nat, size: nat, b: Block)
    requires i < |bs| && bs[i].used && PathOf(bs, i, size) != Move && InUse(bs, b) && b != bs[i]
    ensures InUse(Resized(bs, end, i, size, true).0, b)
  {
    var bs' := Resized(bs, end, i, size, true).0;
    var k :| 0 <= k < |bs| && bs[k] == b;
    var m := |bs'| - |bs|;
    if k < i {
      assert bs'[k] == b;
    } else {
      assert bs'[k + m] == b;
    }
  }

  /** On every path krealloc returns a block with enough room and leaves all other blocks in use where they are. */
  lemma ResizeGivesRoom(start: nat, bs: seq<Block>, end: nat, i: nat, size: nat, found: bool)
    requires Valid(start, bs, end) && 0 < start && i < |bs| && bs[i].used && size % UNIT == 0 && size < WORD
    requires PathOf(bs, i, size) == Move && found ==> RoomToGrow(bs, end, size) && !SumWraps(size)
    ensures var bs' := Resized(bs, end, i, size, found).0;
            && (forall b | InUse(bs, b) && b != bs[i] :: InUse(bs', b))
            && (var p, room := ResizedAt(bs, end, i, size, found), ResizedRoom(bs, end, i, size);
                p != 0 ==> room >= size && HasRoom(bs', p, room))
  {
    if PathOf(bs, i, size) != Move {
      StaysWithRoom(bs, end, i, size, found);
    } else if found {
      MovesWithRoom(start, bs, end, i, size);
    }
  }

  lemma StaysWithRoom(bs: seq<Block>, end: nat, i: nat, size: nat, found: bool)
    requires i < |bs| && bs[i].used && PathOf(bs, i, size) != Move
    ensures var bs', room := Resized(bs, end, i, size, found).0, ResizedRoom(bs, end, i, size);
            && (forall b | InUse(bs, b) && b != bs[i] :: InUse(bs', b))
            && room >= size && HasRoom(bs', Payload(bs[i]), room)
  {
    var bs' := Resized(bs, end, i, size, found).0;
    forall b | InUse(bs, b) && b != bs[i] ensures InUse(bs', b) {
      InPlaceKeepsOthers(bs, end, i, size, b);
    }
    assert InUse(bs', bs'[i]);
  }

  lemma MovesWithRoom(start: nat, bs: seq<Block>, end: nat, i: nat, size: nat)
    requires Valid(start, bs, end) && 0 < start && i < |bs| && bs[i].used && size % UNIT == 0 && size < WORD
    requires PathOf(bs, i, size) == Move && RoomToGrow(bs, end, size) && !SumWraps(size)
    ensures var bs', room := Resized(bs, end, i, size, true).0, Granted(bs, end, size);
            && (forall b | InUse(bs, b) && b != bs[i] :: InUse(bs', b))
            && room >= size && HasRoom(bs', ResizedAt(bs, end, i, size, true), room)
  {
    hide Alloc, Free, Tiled, Aligned, Coalesced, InUse, Granted, PathOf;
    var (bs1, end1, j) := Alloc(bs, end, size);
    AllocKeepsValid(start, bs, end, size);
    BlockAfterAlloc(bs, end, size, i);
    FreeKeepsValidIff(start, bs1, end1, IndexAfterAlloc(bs, size, i));
    GrantedIsSize(start, bs, end, size);
    var bs' := Resized(bs, end, i, size, true).0;
    InUseAt(bs1, j);
    InUseAt(bs, i);
    assert InUse(bs', bs1[j]);
  }

  /** After a move the block that kmalloc takes is in use, the old one is not, and all others are as before. */
  lemma MoveOutcome(start: nat, bs: seq<Block>, end: nat, i: nat, size: nat)
    requires Valid(start, bs, end) && 0 < start && i < |bs| && bs[i].used && size % UNIT == 0
    requires size > bs[i].size && !(FreeNext(bs, i) && bs[i + 1].size + HEADER >= size)
    requires RoomToGrow(bs, end, size) && !SumWraps(size)
    ensures var bs' := Resized(bs, end, i, size, true).0;
            var (bs1, _, j) := Alloc(bs, end, size);
            && j < |bs1| && ResizedAt(bs, end, i, size, true) == Payload(bs1[j]) && bs1[j].size >= size
            && forall b :: InUse(bs', b) <==> (InUse(bs, b) && b != bs[i]) || b == bs1[j]
  {
    hide Alloc, Free, Tiled, Aligned, Coalesced, InUse;
    var (bs1, end1, j) := Alloc(bs, end, size);
    AllocKeepsValid(start, bs, end, size);
    BlockAfterAlloc(bs, end, size, i);
    FreeKeepsValidIff(start, bs1, end1, IndexAfterAlloc(bs, size, i));
    InUseAt(bs, i);
  }

  lemma InUseAt(bs: seq<Block>, i: nat)
    requires i < |bs| && bs[i].used
    ensures InUse(bs, bs[i])
  {}

  /** What krealloc returns has room for the request exactly up to 2^64 - 48 bytes, as with kmalloc. */
  lemma ResizedInFullIff(start: nat, bs: seq<Block>, end: nat, i: nat, requested: nat)
    requires Valid(start, bs, end) && 0 < start && i < |bs| && bs[i].used && requested < WORD
    requires PathOf(bs, i, AlignUp(requested, UNIT)) == Move ==> RoomToGrow(bs, end, AlignUp(requested, UNIT))
    ensures ResizedRoom(bs, end, i, AlignUp(requested, UNIT)) >= requested <==> requested <= WORD - 48
  {
    hide AlignUp;
    var size := AlignUp(requested, UNIT);
    AlignUpRounds(requested, UNIT);
    if PathOf(bs, i, size) == Move {
      GrantedInFullIff(start, bs, end, requested);
    } else {
      SizesBelow(start, bs, end, i);
      if i + 1 < |bs| { SizesBelow(start, bs, end, i + 1); }
      StaysWithRoom(bs, end, i, size, false);
    }
  }

  // ----- runs -----

  datatype State = State(blocks: seq<Block>, end: nat)

  // kmalloc of any size that with its header and the grown heap fits into 64 bits, kfree of the i-th block, or
  // krealloc of it;
  // `found` is whether krealloc finds memory if it has to move the block.
  datatype Event = Malloc(size: nat) | Dealloc(i: nat) | Resize(i: nat, size: nat, found: bool)

  predicate Fits(s: State, size: nat) {
    size < WORD && AlignUp(size, UNIT) + HEADER < WORD && RoomToGrow(s.blocks, s.end, AlignUp(size, UNIT))
  }

  predicate Possible(s: State, e: Event) {
    match e
    case Malloc(size) => Fits(s, size)
    case Dealloc(i) => i < |s.blocks| && s.blocks[i].used
    case Resize(i, size, _) => i < |s.blocks| && s.blocks[i].used && Fits(s, size)
  }

  function Next(s: State, e: Event): State
    requires Possible(s, e)
  {
    match e
    case Malloc(size) => var (bs, end, _) := Alloc(s.blocks, s.end, AlignUp(size, UNIT)); State(bs, end)
    case Dealloc(i) => var (bs, end) := Free(s.blocks, s.end, i); State(bs, end)
    case Resize(i, size, found) =>
      var (bs, end) := Resized(s.blocks, s.end, i, AlignUp(size, UNIT), found); State(bs, end)
  }

  // init_heap
  function Init(start: nat): State { State([Block(start, PAGE - HEADER, false)], start + PAGE) }

  ghost predicate Run(s: State, es: seq<Event>)
    decreases |es|
  {
    es == [] || (Possible(s, es[0]) && Run(Next(s, es[0]), es[1..]))
  }

  ghost function After(s: State, es: seq<Event>): State
    requires Run(s, es)
    decreases |es|
  {
    if es == [] then s else After(Next(s, es[0]), es[1..])
  }

  // The call does not meet one of the cases above that break the heap.
  predicate Harmless(s: State, e: Event)
    requires Possible(s, e)
  {
    match e
    case Malloc(_) => true
    case Dealloc(i) => !Underflows(s.blocks, s.end, i)
    case Resize(i, size, found) => ResizeSound(s.blocks, s.end, i, AlignUp(size, UNIT), found)
  }

  ghost predicate Sound(s: State, es: seq<Event>)
    requires Run(s, es)
    decreases |es|
  {
    es == [] || (Harmless(s, es[0]) && Sound(Next(s, es[0]), es[1..]))
  }

  /** One call keeps the heap valid exactly when it is harmless. */
  lemma NextKeepsValidIff(start: nat, s: State, e: Event)
    requires Valid(start, s.blocks, s.end) && Possible(s, e)
    ensures Valid(start, Next(s, e).blocks, Next(s, e).end) <==> Harmless(s, e)
  {
    match e
    case Malloc(size) =>
      AlignUpRounds(size, UNIT);
      AllocKeepsValid(start, s.blocks, s.end, AlignUp(size, UNIT));
    case Dealloc(i) => FreeKeepsValidIff(start, s.blocks, s.end, i);
    case Resize(i, size, found) =>
      AlignUpRounds(size, UNIT);
      ResizeKeepsValidIff(start, s.blocks, s.end, i, AlignUp(size, UNIT), found);
  }

  /** The heap is valid after every run of harmless calls ... */
  lemma {:induction false} RunKeepsValid(start: nat, s: State, es: seq<Event>)
    requires Valid(start, s.blocks, s.end) && Run(s, es) && Sound(s, es)
    ensures Valid(start, After(s, es).blocks, After(s, es).end)
    decreases |es|
  {
    if es != [] {
      NextKeepsValidIff(start, s, es[0]);
      RunKeepsValid(start, Next(s, es[0]), es[1..]);
    }
  }

  /** ... and the first call that is not makes it invalid. */
  lemma HarmBreaksHeap(start: nat, s: State, es: seq<Event>, e: Event)
    requires Valid(start, s.blocks, s.end) && Run(s, es) && Sound(s, es)
    requires Possible(After(s, es), e) && !Harmless(After(s, es), e)
    ensures var t := Next(After(s, es), e); !Valid(start, t.blocks, t.end)
  {
    RunKeepsValid(start, s, es);
    NextKeepsValidIff(start, After(s, es), e);
  }

  /** When everything allocated in a run has been freed again, the heap is one free block. */
  lemma AllFreedIsOneBlock(start: nat, es: seq<Event>)
    requires start % PAGE == 0 && start + PAGE < WORD && Run(Init(start), es) && Sound(Init(start), es)
    requires NoneInUse(After(Init(start), es).blocks)
    ensures var t := After(Init(start), es); |t.blocks| == 1 && t.blocks[0].addr == start && End(t.blocks[0]) == t.end
  {
    RunKeepsValid(start, Init(start), es);
    AllFreeIsOneBlock(start, After(Init(start), es).blocks, After(Init(start), es).end);
  }

  // The heap after a first kmalloc(100).
  const ONE_BLOCK := State([Block(4096, 112, true), Block(4240, 3920, false)], 8192)

  lemma OneBlockRun()
    ensures Run(Init(PAGE), [Malloc(100)]) && Sound(Init(PAGE), [Malloc(100)])
        && After(Init(PAGE), [Malloc(100)]) == ONE_BLOCK
  {
    var es := [Malloc(100)];
    AlignUpRounds(100, UNIT);
    assert AlignUp(100, UNIT) == 112;
    assert Next(Init(PAGE), Malloc(100)) == ONE_BLOCK;
    assert es[1..] == [];
  }

  /** krealloc that shrinks this block to 50 bytes leaves it overlapping the moved header of the free block ... */
  lemma ShrinkHarmIsReachable()
    ensures Run(Init(PAGE), [Malloc(100)]) && Sound(Init(PAGE), [Malloc(100)])
    ensures var t := After(Init(PAGE), [Malloc(100)]);
            && Possible(t, Resize(0, 50, true)) && !Harmless(t, Resize(0, 50, true))
            && Next(t, Resize(0, 50, true)).blocks == [Block(4096, 112, true), Block(4192, 3968, false)]
  {
    OneBlockRun();
    AlignUpRounds(50, UNIT);
    assert AlignUp(50, UNIT) == 64;
    assert ShiftNext(ONE_BLOCK.blocks, 0, 64) == [Block(4096, 112, true), Block(4192, 3968, false)];
  }

  /** ... and one that grows it to 200 bytes leaves the last 112 bytes of the heap in no block. */
  lemma GrowHarmIsReachable()
    ensures Run(Init(PAGE), [Malloc(100)]) && Sound(Init(PAGE), [Malloc(100)])
    ensures var t := After(Init(PAGE), [Malloc(100)]);
            && Possible(t, Resize(0, 200, true)) && !Harmless(t, Resize(0, 200, true))
            && Next(t, Resize(0, 200, true)) == State([Block(4096, 208, true), Block(4336, 3712, false)], 8192)
  {
    OneBlockRun();
    AlignUpRounds(200, UNIT);
    assert AlignUp(200, UNIT) == 208;
    var bs := ONE_BLOCK.blocks;
    assert Swallowed(bs, 0) == [Block(4096, 3952, true)];
    assert SwallowNext(bs, 0, 208) == [Block(4096, 208, true), Block(4336, 3712, false)];
  }

  // Three blocks of a page each, the first two freed, and a block that ends 16 bytes before the page boundary.
  const UNDERFLOW_RUN := [Malloc(4064), Malloc(4064), Malloc(4064), Dealloc(0), Dealloc(1), Malloc(4048)]

  const UNDERFLOW_STATES := [
    Init(PAGE),
    State([Block(4096, 4064, true)], 8192),
    State([Block(4096, 4064, true), Block(8192, 4064, true), Block(12288, 4064, false)], 16384),
    State([Block(4096, 4064, true), Block(8192, 4064, true), Block(12288, 4064, true)], 16384),
    State([Block(4096, 4064, false), Block(8192, 4064, true), Block(12288, 4064, true)], 16384),
    State([Block(4096, 8160, false), Block(12288, 4064, true)], 16384),
    State([Block(4096, 4048, true), Block(8176, 4080, false), Block(12288, 4064, true)], 16384)]

  lemma UnderflowStep(k: nat)
    requires k < 6
    ensures var s, e := UNDERFLOW_STATES[k], UNDERFLOW_RUN[k];
            && Possible(s, e) && Next(s, e) == UNDERFLOW_STATES[k + 1]
            && Harmless(s, e)
  {
    if k == 0 { UnderflowAlloc(0); } else if k == 1 { UnderflowAlloc(1); } else if k == 2 { UnderflowAlloc(2); }
    else if k == 5 { UnderflowAlloc(5); } else { UnderflowFree(k); }
  }

  lemma UnderflowAlloc(k: nat)
    requires k in {0, 1, 2, 5}
    ensures var s, e := UNDERFLOW_STATES[k], UNDERFLOW_RUN[k];
            Possible(s, e) && Next(s, e) == UNDERFLOW_STATES[k + 1]
  {
    hide AlignUp;
    var s, e := UNDERFLOW_STATES[k], UNDERFLOW_RUN[k];
    AlignUpRounds(e.size, UNIT);
    assert AlignUp(e.size, UNIT) == e.size;
  }

  lemma UnderflowFree(k: nat)
    requires k in {3, 4}
    ensures var s, e := UNDERFLOW_STATES[k], UNDERFLOW_RUN[k];
            && Possible(s, e) && Next(s, e) == UNDERFLOW_STATES[k + 1]
            && !Underflows(s.blocks, s.end, e.i)
  {
  }

  lemma {:induction false} UnderflowFrom(k: nat)
    requires k <= 6
    ensures var s, es := UNDERFLOW_STATES[k], UNDERFLOW_RUN[k..];
            Run(s, es) && Sound(s, es) && After(s, es) == UNDERFLOW_STATES[6]
    decreases 6 - k
  {
    if k < 6 {
      UnderflowStep(k);
      UnderflowFrom(k + 1);
      assert UNDERFLOW_RUN[k..][1..] == UNDERFLOW_RUN[k + 1..];
    }
  }

  /** Such a kfree is reachable: after this run, freeing the last block writes the size 2^64 - 16. */
  lemma UnderflowIsReachable()
    ensures Run(Init(PAGE), UNDERFLOW_RUN) && Sound(Init(PAGE), UNDERFLOW_RUN)
    ensures var t := After(Init(PAGE), UNDERFLOW_RUN);
            && |t.blocks| == 3 && t.blocks[2].used && Underflows(t.blocks, t.end, 2)
            && Next(t, Dealloc(2)).blocks == [Block(PAGE, 4048, true), Block(PAGE + 4080, WORD - 16, false)]
  {
    UnderflowFrom(0);
    assert UNDERFLOW_RUN[0..] == UNDERFLOW_RUN;
    UnderflowLast();
  }

  lemma UnderflowLast()
    ensures var t := UNDERFLOW_STATES[6];
            && Underflows(t.blocks, t.end, 2)
            && Next(t, Dealloc(2)).blocks == [Block(PAGE, 4048, true), Block(PAGE + 4080, WORD - 16, false)]
  {
    hide Release, AlignUp;
    UnderflowJoin();
    AlignUpRounds(8240, PAGE);
    AlignUpRounds(8176, PAGE);
    var joined := [Block(4096, 4048, true), Block(8176, 8176, false)];
    assert Trims(joined, 16384, 1);
  }

  lemma UnderflowJoin()
    ensures Release(UNDERFLOW_STATES[6].blocks, 2) == ([Block(4096, 4048, true), Block(8176, 8176, false)], 1)
  {
    var bs := [Block(4096, 4048, true), Block(8176, 4080, false), Block(12288, 4064, true)];
    assert UNDERFLOW_STATES[6].blocks == bs;
    var freed := bs[2 := bs[2].(used := false)];
    assert freed[..1] == [bs[0]] && freed[3..] == [];
    assert Absorb(freed, 1) == [Block(4096, 4048, true), Block(8176, 8176, false)];
    assert JoinsNext(freed, 1);
  }
}
