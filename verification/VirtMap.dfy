/**
 The kernel's map of free virtual pages: its range array lives on the heap, is halved when mostly unused and
 doubled when a returned range finds no room.
 */
module VirtMap {
  import opened Wrappers
  import opened Pages
  import opened Mmap

  class VirtMemory {
    var free: MemoryMap

    constructor (m: MemoryMap)
      ensures free == m
    {
      free := m;
    }

    // krealloc of the array to `size` entries; `granted` is whether the heap had room.
    method Resize(size: nat, granted: bool)
      requires free.InBounds() && free.count <= size
      modifies free
      ensures free.InBounds() && free.Contents() == old(free.Contents())
      ensures if granted then fresh(free.ranges) && free.ranges.Length == size else free.ranges == old(free.ranges)
    {
      if granted {
        var a := new Range[size](_ => Range(0, 0));
        for i := 0 to free.count
          invariant free.ranges == old(free.ranges) && free.count == old(free.count)
          invariant a[..i] == free.ranges[..i]
          invariant free.ranges[..] == old(free.ranges[..])
        {
          a[i] := free.ranges[i];
        }
        free.ranges := a;
      }
    }

    // virt_mmap_reduce
    method Reduce(granted: bool)
      requires free.InBounds()
      modifies free
      ensures free.InBounds() && free.Contents() == old(free.Contents())
      ensures free.ranges.Length == if granted && 2 * free.count < old(free.ranges.Length)
                                    then old(free.ranges.Length) / 2 else old(free.ranges.Length)
      ensures free.ranges == old(free.ranges) || fresh(free.ranges)
    {
      if free.count * 2 < free.ranges.Length {
        Resize(free.ranges.Length / 2, granted);
      }
    }

    /** alloc_virt_pages */
    method AllocVirtPages(pages: nat, granted: bool) returns (base: nat)
      requires free.InBounds()
      modifies free, free.ranges
      ensures free.InBounds() && (base, free.Contents()) == Get(old(free.Contents()), pages)
      ensures free.ranges.Length == if base != 0 && granted && 2 * |free.Contents()| < old(free.ranges.Length)
                                    then old(free.ranges.Length) / 2 else old(free.ranges.Length)
    {
      base := free.GetPages(pages);
      if base != 0 {
        Reduce(granted);
      }
    }

    /**
     free_virt_pages, for a returned range the function can place. `grow` and `shrink` say what krealloc
     grants. The range is placed unless the array has to grow and may not.
    */
    method FreeVirtPages(base: nat, pages: nat, grow: bool, shrink: bool) returns (ok: bool)
      requires free.InBounds() && Placeable(free.Contents(), free.ranges.Length, base, pages)
      modifies free, free.ranges
      ensures free.InBounds()
      ensures ok <==> grow || AddMerge(old(free.Contents()), old(free.ranges.Length), base, pages).Some?
      ensures ok ==> Some(free.Contents()) == AddMerge(old(free.Contents()), |old(free.Contents())| + 1, base, pages)
      ensures !ok ==> free.Contents() == old(free.Contents())
      ensures AddMerge(old(free.Contents()), old(free.ranges.Length), base, pages).Some? ==>
                free.ranges.Length == if shrink && 2 * |free.Contents()| < old(free.ranges.Length)
                                      then old(free.ranges.Length) / 2 else old(free.ranges.Length)
      ensures AddMerge(old(free.Contents()), old(free.ranges.Length), base, pages).None? ==>
                free.ranges.Length == if grow then 2 * |old(free.Contents())| else old(free.ranges.Length)
      decreases AddMerge(free.Contents(), free.ranges.Length, base, pages).None?
    {
      ok := free.AddRangeMerge(base, pages);
      if ok {
        Reduce(shrink);
        return;
      }
      if !grow {
        return;
      }
      ghost var was := free.Contents();
      Resize(free.count * 2, grow);
      GrownArrayHasRoom(was, free.ranges.Length, base, pages);
      ok := FreeVirtPages(base, pages, grow, shrink);
    }
  }

  // A range that fits at once, or fits after the array is doubled.
  predicate Placeable(rs: seq<Range>, max: nat, base: nat, pages: nat) {
    AddMerge(rs, max, base, pages).Some? || (pages > 0 && rs != [])
  }

  lemma GrownArrayHasRoom(rs: seq<Range>, max: nat, base: nat, pages: nat)
    requires pages > 0 && rs != [] && max == 2 * |rs|
    ensures AddMerge(rs, max, base, pages).Some?
  {}

  /**
   When free_virt_pages stops: doubling the array makes room exactly when the range is not empty and the array
   is not either. From an empty array, or with nothing to return, it doubles and retries without end.
  */
  lemma RetrySucceedsIff(rs: seq<Range>, max: nat, base: nat, pages: nat)
    requires AddMerge(rs, max, base, pages).None?
    ensures AddMerge(rs, 2 * |rs|, base, pages).Some? <==> pages > 0 && rs != []
    ensures Placeable(rs, max, base, pages) <==> pages > 0 && rs != []
  {}
}
