/**
 The page-range allocator: an array of address ranges, searched first fit, with ranges merged only in front of
 an existing one. The methods work on the array in place; what they do is stated on the sequence it holds.
 */
module Mmap {
  import opened Wrappers
  import opened Pages

  datatype Range = Range(base: nat, pages: nat)

  function End(r: Range): nat { r.base + PAGE * r.pages }

  predicate Contains(r: Range, a: nat) { r.base <= a < End(r) }

  // Some range holds address `a`.
  ghost predicate Free(rs: seq<Range>, a: nat) { exists i :: 0 <= i < |rs| && Contains(rs[i], a) }

  function Total(rs: seq<Range>): nat { if rs == [] then 0 else rs[0].pages + Total(rs[1..]) }

  // The ranges share no address.
  predicate Apart(r: Range, r': Range) { r.pages == 0 || r'.pages == 0 || End(r) <= r'.base || End(r') <= r.base }

  ghost predicate Disjoint(rs: seq<Range>) { forall i, j | 0 <= i < j < |rs| :: Apart(rs[i], rs[j]) }

  // What the allocator keeps: nonempty disjoint ranges, none of them at address 0.
  ghost predicate Valid(rs: seq<Range>) {
    Disjoint(rs) && forall i | 0 <= i < |rs| :: rs[i].pages > 0 && rs[i].base > 0
  }

  // ----- what the operations do -----

  // The first range of at least `pages` pages; |rs| if there is none.
  function FirstFit(rs: seq<Range>, pages: nat): (i: nat)
    ensures i <= |rs| && (i < |rs| ==> rs[i].pages >= pages)
    ensures forall j | 0 <= j < i :: rs[j].pages < pages
  {
    if rs == [] then 0 else if rs[0].pages >= pages then 0 else 1 + FirstFit(rs[1..], pages)
  }

  // The first range that starts at `a`; |rs| if there is none.
  function FirstAt(rs: seq<Range>, a: nat): (i: nat)
    ensures i <= |rs| && (i < |rs| ==> rs[i].base == a)
    ensures forall j | 0 <= j < i :: rs[j].base != a
  {
    if rs == [] then 0 else if rs[0].base == a then 0 else 1 + FirstAt(rs[1..], a)
  }

  // mmap_get_pages: an exact fit is removed, a larger range loses its front.
  function Get(rs: seq<Range>, pages: nat): (nat, seq<Range>) {
    var i := FirstFit(rs, pages);
    if i == |rs| then (0, rs)
    else if rs[i].pages == pages then (rs[i].base, rs[..i] + rs[i + 1..])
    else (rs[i].base, rs[i := Range(rs[i].base + PAGE * pages, rs[i].pages - pages)])
  }

  function Add(rs: seq<Range>, max: nat, base: nat, pages: nat): Option<seq<Range>> {
    if pages == 0 || |rs| >= max then None else Some(rs + [Range(base, pages)])
  }

  // mmap_add_range_merge: in front of the range that starts where the new one ends, else at the end.
  function AddMerge(rs: seq<Range>, max: nat, base: nat, pages: nat): Option<seq<Range>> {
    if pages == 0 then None else
    var i := FirstAt(rs, base + PAGE * pages);
    if i < |rs| then Some(rs[i := Range(base, rs[i].pages + pages)]) else Add(rs, max, base, pages)
  }

  class MemoryMap {
    var ranges: array<Range>
    var count: nat

    constructor (ranges: array<Range>, count: nat)
      ensures this.ranges == ranges && this.count == count
    {
      this.ranges, this.count := ranges, count;
    }

    ghost predicate InBounds()
      reads this
    {
      count <= ranges.Length
    }

    ghost function Contents(): seq<Range>
      reads this, ranges
      requires InBounds()
    {
      ranges[..count]
    }

    method AddRange(base: nat, pages: nat) returns (ok: bool)
      requires InBounds()
      modifies `count, ranges
      ensures InBounds()
      ensures var r := Add(old(Contents()), ranges.Length, base, pages);
              ok == r.Some? && Contents() == if ok then r.value else old(Contents())
    {
      if pages == 0 {
        return false;
      }
      if count >= ranges.Length {
        return false;
      }
      ranges[count] := Range(base, pages);
      count := count + 1;
      ok := true;
    }

    method AddRangeMerge(base: nat, pages: nat) returns (ok: bool)
      requires InBounds()
      modifies `count, ranges
      ensures InBounds()
      ensures var r := AddMerge(old(Contents()), ranges.Length, base, pages);
              ok == r.Some? && Contents() == if ok then r.value else old(Contents())
    {
      if pages == 0 {
        return false;
      }
      var mergeAddr := base + PAGE * pages;
      for i := 0 to count
        invariant Contents() == old(Contents()) && count == old(count)
        invariant forall j | 0 <= j < i :: ranges[j].base != mergeAddr
      {
        if ranges[i].base == mergeAddr {
          assert i == FirstAt(Contents(), mergeAddr);
          ranges[i] := Range(base, ranges[i].pages + pages);
          return true;
        }
      }
      ok := AddRange(base, pages);
    }

    // Closes the gap that range `i` leaves.
    method RemoveAt(i: nat)
      requires InBounds() && i < count
      modifies `count, ranges
      ensures InBounds()
      ensures Contents() == old(Contents())[..i] + old(Contents())[i + 1..]
    {
      ghost var was := Contents();
      for j := i + 1 to count
        invariant count == old(count)
        invariant forall k | 0 <= k < i :: ranges[k] == was[k]
        invariant forall k | i <= k < j - 1 :: ranges[k] == was[k + 1]
        invariant forall k | j <= k < count :: ranges[k] == was[k]
      {
        ranges[j - 1] := ranges[j];
      }
      count := count - 1;
    }

    // Address 0 doubles as the failure value.
    method GetPages(pages: nat) returns (base: nat)
      requires InBounds()
      modifies `count, ranges
      ensures InBounds()
      ensures (base, Contents()) == Get(old(Contents()), pages)
    {
      ghost var was := Contents();
      for i := 0 to count
        invariant Contents() == was && count == old(count)
        invariant forall j | 0 <= j < i :: ranges[j].pages < pages
      {
        if ranges[i].pages == pages {
          assert i == FirstFit(was, pages);
          base := ranges[i].base;
          RemoveAt(i);
          return;
        }
        if ranges[i].pages > pages {
          assert i == FirstFit(was, pages);
          base := ranges[i].base;
          ranges[i] := Range(ranges[i].base + PAGE * pages, ranges[i].pages - pages);
          return;
        }
      }
      base := 0;
    }
  }

  // ----- what the operations mean -----

  lemma {:induction false} TotalConcat(a: seq<Range>, b: seq<Range>)
    ensures Total(a + b) == Total(a) + Total(b)
  {
    if a == [] {
      assert a + b == b;
    } else {
      assert (a + b)[1..] == a[1..] + b;
      TotalConcat(a[1..], b);
    }
  }

  lemma TotalSplit(rs: seq<Range>, i: nat)
    requires i < |rs|
    ensures Total(rs) == Total(rs[..i]) + rs[i].pages + Total(rs[i + 1..])
  {
    assert rs == rs[..i] + rs[i..];
    TotalConcat(rs[..i], rs[i..]);
    assert rs[i..][1..] == rs[i + 1..];
  }

  lemma TotalSet(rs: seq<Range>, i: nat, r: Range)
    requires i < |rs|
    ensures Total(rs[i := r]) == Total(rs) - rs[i].pages + r.pages
  {
    TotalSplit(rs, i);
    TotalSplit(rs[i := r], i);
    assert rs[i := r][..i] == rs[..i] && rs[i := r][i + 1..] == rs[i + 1..];
  }

  /** mmap_get_pages fails exactly when no range is large enough. */
  lemma GetFailsIffNoneFits(rs: seq<Range>, pages: nat)
    requires Valid(rs)
    ensures Get(rs, pages).0 == 0 <==> forall i | 0 <= i < |rs| :: rs[i].pages < pages
    ensures Get(rs, pages).0 == 0 ==> Get(rs, pages).1 == rs
  {}

  /** It takes from the front of the first range that is large enough, and a range that is used up leaves the array. */
  lemma GetTakesFirst(rs: seq<Range>, pages: nat, i: nat)
    requires i < |rs| && rs[i].pages >= pages && forall j | 0 <= j < i :: rs[j].pages < pages
    ensures Get(rs, pages).0 == rs[i].base
    ensures |Get(rs, pages).1| == |rs| - if rs[i].pages == pages then 1 else 0
  {
    assert FirstFit(rs, pages) == i;
  }

  /** Returning a range merges it with a range behind it exactly if there is one, and then takes no new entry. */
  lemma AddMergeLength(rs: seq<Range>, max: nat, r: Range)
    requires AddMerge(rs, max, r.base, r.pages).Some?
    ensures var rs' := AddMerge(rs, max, r.base, r.pages).value;
            |rs'| == |rs| + if exists i :: 0 <= i < |rs| && rs[i].base == End(r) then 0 else 1
  {}

  // Some range other than the i-th holds address `a`.
  ghost predicate FreeBut(rs: seq<Range>, i: nat, a: nat) { exists k :: 0 <= k < |rs| && k != i && Contains(rs[k], a) }

  lemma FreeSet(rs: seq<Range>, i: nat, r: Range, a: nat)
    requires i < |rs|
    ensures Free(rs, a) <==> Contains(rs[i], a) || FreeBut(rs, i, a)
    ensures Free(rs[i := r], a) <==> Contains(r, a) || FreeBut(rs, i, a)
  {
    var rs' := rs[i := r];
    if FreeBut(rs, i, a) {
      var k :| 0 <= k < |rs| && k != i && Contains(rs[k], a);
      assert Contains(rs'[k], a);
    }
    if Free(rs', a) {
      var k :| 0 <= k < |rs'| && Contains(rs'[k], a);
      assert k != i ==> Contains(rs[k], a);
    }
    assert Contains(r, a) ==> Contains(rs'[i], a);
  }

  lemma FreeRemoved(rs: seq<Range>, i: nat, a: nat)
    requires i < |rs|
    ensures Free(rs[..i] + rs[i + 1..], a) <==> FreeBut(rs, i, a)
  {
    var rs' := rs[..i] + rs[i + 1..];
    if FreeBut(rs, i, a) {
      var k :| 0 <= k < |rs| && k != i && Contains(rs[k], a);
      assert Contains(rs'[if k < i then k else k - 1], a);
    }
    if Free(rs', a) {
      var k :| 0 <= k < |rs'| && Contains(rs'[k], a);
      assert Contains(rs[if k < i then k else k + 1], a);
    }
  }

  lemma FreeAppended(rs: seq<Range>, r: Range, a: nat)
    ensures Free(rs + [r], a) <==> Free(rs, a) || Contains(r, a)
  {
    var rs' := rs + [r];
    if Free(rs, a) {
      var k :| 0 <= k < |rs| && Contains(rs[k], a);
      assert Contains(rs'[k], a);
    }
    assert Contains(r, a) ==> Contains(rs'[|rs|], a);
  }

  // Replacing a range by one that keeps clear of the others keeps the ranges disjoint.
  lemma ValidSet(rs: seq<Range>, i: nat, r: Range)
    requires Valid(rs) && i < |rs| && r.pages > 0 && r.base > 0
    requires forall k | 0 <= k < |rs| && k != i :: Apart(rs[k], r)
    ensures Valid(rs[i := r])
  {}

  /** What mmap_get_pages hands out was free, is free no longer, and nothing else changed hands. */
  lemma GetMovesPages(rs: seq<Range>, pages: nat)
    requires Valid(rs) && Get(rs, pages).0 != 0
    ensures var (base, rs') := Get(rs, pages);
            var got := Range(base, pages);
            && Valid(rs')
            && Total(rs') + pages == Total(rs)
            && (forall a :: Free(rs, a) <==> Free(rs', a) || Contains(got, a))
            && (forall k | 0 <= k < |rs'| :: Apart(rs'[k], got))
  {
    hide Total, Free, Apart, Contains, End;
    var i := FirstFit(rs, pages);
    if rs[i].pages == pages {
      GetExact(rs, i);
    } else {
      GetCarves(rs, i, pages);
    }
  }

  lemma GetExact(rs: seq<Range>, i: nat)
    requires Valid(rs) && i < |rs|
    ensures var rs' := rs[..i] + rs[i + 1..];
            && Valid(rs') && Total(rs') + rs[i].pages == Total(rs)
            && (forall a :: Free(rs, a) <==> Free(rs', a) || Contains(rs[i], a))
            && (forall k | 0 <= k < |rs'| :: Apart(rs'[k], rs[i]))
  {
    var rs' := rs[..i] + rs[i + 1..];
    TotalSplit(rs, i);
    TotalConcat(rs[..i], rs[i + 1..]);
    forall a ensures Free(rs, a) <==> Free(rs', a) || Contains(rs[i], a) {
      FreeSet(rs, i, rs[i], a);
      FreeRemoved(rs, i, a);
    }
    assert forall k | 0 <= k < |rs'| :: rs'[k] == rs[if k < i then k else k + 1];
  }

  lemma GetCarves(rs: seq<Range>, i: nat, pages: nat)
    requires Valid(rs) && i < |rs| && pages < rs[i].pages
    ensures var got := Range(rs[i].base, pages);
            var rs' := rs[i := Range(rs[i].base + PAGE * pages, rs[i].pages - pages)];
            && Valid(rs') && Total(rs') + pages == Total(rs)
            && (forall a :: Free(rs, a) <==> Free(rs', a) || Contains(got, a))
            && (forall k | 0 <= k < |rs'| :: Apart(rs'[k], got))
  {
    var got := Range(rs[i].base, pages);
    var rest := Range(rs[i].base + PAGE * pages, rs[i].pages - pages);
    assert End(rest) == End(rs[i]);
    assert forall k | 0 <= k < |rs| && k != i :: Apart(rs[k], rs[i]);
    ValidSet(rs, i, rest);
    TotalSet(rs, i, rest);
    forall a ensures Free(rs, a) <==> Free(rs[i := rest], a) || Contains(got, a) {
      FreeSet(rs, i, rest, a);
    }
  }

  /** Returning a range that lies apart from all free ones makes exactly its pages free. */
  lemma AddMergeFreesPages(rs: seq<Range>, max: nat, r: Range)
    requires Valid(rs) && r.base > 0 && forall i | 0 <= i < |rs| :: Apart(rs[i], r)
    requires AddMerge(rs, max, r.base, r.pages).Some?
    ensures var rs' := AddMerge(rs, max, r.base, r.pages).value;
            && Valid(rs')
            && Total(rs') == Total(rs) + r.pages
            && (forall a :: Free(rs', a) <==> Free(rs, a) || Contains(r, a))
  {
    var rs' := AddMerge(rs, max, r.base, r.pages).value;
    var i := FirstAt(rs, End(r));
    if i < |rs| {
      assert End(rs'[i]) == End(rs[i]);
      forall k | 0 <= k < |rs| && k != i ensures Apart(rs[k], rs'[i]) {
        assert Apart(rs[k], rs[i]) && Apart(rs[k], r);
      }
      ValidSet(rs, i, rs'[i]);
      TotalSet(rs, i, rs'[i]);
      forall a ensures Free(rs', a) <==> Free(rs, a) || Contains(r, a) {
        FreeSet(rs, i, rs'[i], a);
      }
    } else {
      TotalConcat(rs, [r]);
      forall a ensures Free(rs', a) <==> Free(rs, a) || Contains(r, a) {
        FreeAppended(rs, r, a);
      }
    }
  }

  /** Returning fails exactly for an empty range, or when the array is full and nothing starts where it ends. */
  lemma AddMergeFailsIff(rs: seq<Range>, max: nat, base: nat, pages: nat)
    ensures AddMerge(rs, max, base, pages).None? <==>
            pages == 0 || (|rs| >= max && forall i | 0 <= i < |rs| :: rs[i].base != base + PAGE * pages)
  {}

  /** Allocate, then free: always succeeds and restores the free pages; a carved range is restored as it was. */
  lemma GetThenAddMerge(rs: seq<Range>, max: nat, pages: nat)
    requires Valid(rs) && |rs| <= max && pages > 0 && Get(rs, pages).0 != 0
    ensures var (base, rs') := Get(rs, pages);
            var back := AddMerge(rs', max, base, pages);
            && back.Some? && Valid(back.value) && Total(back.value) == Total(rs)
            && (forall a :: Free(back.value, a) <==> Free(rs, a))
            && (rs[FirstFit(rs, pages)].pages > pages ==> back.value == rs)
  {
    var (base, rs') := Get(rs, pages);
    var i := FirstFit(rs, pages);
    GetMovesPages(rs, pages);
    if rs[i].pages > pages {
      CarvedIsFound(rs, i, pages);
    }
    AddMergeFreesPages(rs', max, Range(base, pages));
  }

  // The rest of a carved range is the only one that starts where the carved part ends.
  lemma CarvedIsFound(rs: seq<Range>, i: nat, pages: nat)
    requires Valid(rs) && i < |rs| && 0 < pages < rs[i].pages
    ensures var rest := Range(rs[i].base + PAGE * pages, rs[i].pages - pages);
            FirstAt(rs[i := rest], rest.base) == i && rs[i := rest][i := rs[i]] == rs
  {
    var rest := Range(rs[i].base + PAGE * pages, rs[i].pages - pages);
    var rs' := rs[i := rest];
    assert forall k | 0 <= k < |rs| && k != i :: Apart(rs[k], rs[i]) && rs'[k] == rs[k];
    var f := FirstAt(rs', rest.base);
    assert rs'[i].base == rest.base;
    assert forall k | 0 <= k < i :: rs'[k].base != rest.base;
  }

  // ----- runs -----

  // mmap_get_pages, or mmap_add_range_merge of `pages` pages of the k-th range still out, from its page `skip` on.
  datatype Event = Alloc(pages: nat) | Dealloc(k: nat, skip: nat, pages: nat)

  datatype State = State(free: seq<Range>, out: seq<Range>)

  function Front(r: Range, n: nat): Range { Range(r.base, n) }

  function Part(r: Range, skip: nat, n: nat): Range { Range(r.base + PAGE * skip, n) }

  function Back(r: Range, n: nat): Range
    requires n <= r.pages
  {
    Range(r.base + PAGE * n, r.pages - n)
  }

  predicate Possible(s: State, max: nat, e: Event) {
    match e
    case Alloc(n) => Get(s.free, n).0 != 0
    case Dealloc(k, skip, n) =>
      && k < |s.out| && skip + n <= s.out[k].pages
      && AddMerge(s.free, max, Part(s.out[k], skip, n).base, n).Some?
  }

  // What is out after a part of a range has come back: its front and its back, either of which may be empty.
  function OutAfter(out: seq<Range>, k: nat, skip: nat, n: nat): seq<Range>
    requires k < |out| && skip + n <= out[k].pages
  {
    out[k := Front(out[k], skip)] + [Back(out[k], skip + n)]
  }

  function Next(s: State, max: nat, e: Event): State
    requires Possible(s, max, e)
  {
    match e
    case Alloc(n) => State(Get(s.free, n).1, s.out + [Range(Get(s.free, n).0, n)])
    case Dealloc(k, skip, n) =>
      State(AddMerge(s.free, max, Part(s.out[k], skip, n).base, n).value, OutAfter(s.out, k, skip, n))
  }

  ghost predicate Run(s: State, max: nat, es: seq<Event>)
    decreases |es|
  {
    es == [] || (Possible(s, max, es[0]) && Run(Next(s, max, es[0]), max, es[1..]))
  }

  ghost function After(s: State, max: nat, es: seq<Event>): State
    requires Run(s, max, es)
    decreases |es|
  {
    if es == [] then s else After(Next(s, max, es[0]), max, es[1..])
  }

  ghost predicate AllApart(rs: seq<Range>, x: Range) { forall i | 0 <= i < |rs| :: Apart(rs[i], x) }

  // Free and outstanding ranges never overlap one another.
  ghost predicate Sound(s: State) {
    && Valid(s.free)
    && Disjoint(s.out)
    && (forall i | 0 <= i < |s.out| :: s.out[i].base > 0)
    && (forall j | 0 <= j < |s.out| :: AllApart(s.free, s.out[j]))
  }

  ghost predicate Usable(s: State, a: nat) { Free(s.free, a) || Free(s.out, a) }

  lemma NextKeepsSound(s: State, max: nat, e: Event)
    requires Sound(s) && |s.free| <= max && Possible(s, max, e)
    ensures var s' := Next(s, max, e);
            && Sound(s') && |s'.free| <= max
            && Total(s'.free) + Total(s'.out) == Total(s.free) + Total(s.out)
            && (forall a :: Usable(s', a) <==> Usable(s, a))
  {
    hide Sound, Usable, Total, Get, AddMerge, OutAfter;
    match e
    case Alloc(n) => AllocKeepsSound(s, n);
    case Dealloc(k, skip, n) => DeallocKeepsSound(s, max, k, skip, n);
  }

  // A part of a range lies apart from everything that the range does.
  lemma SubApart(r: Range, q: Range, x: Range)
    requires Apart(r, x) && r.base <= q.base && End(q) <= End(r) && (q.pages > 0 ==> r.pages > 0)
    ensures Apart(q, x) && Apart(x, q)
  {}

  // What mmap_get_pages hands out and what it leaves stay apart from what the ranges were apart from.
  lemma GetKeepsApart(rs: seq<Range>, pages: nat, x: Range)
    requires Valid(rs) && Get(rs, pages).0 != 0 && AllApart(rs, x)
    ensures AllApart(Get(rs, pages).1, x) && Apart(x, Range(Get(rs, pages).0, pages))
    ensures |Get(rs, pages).1| <= |rs|
  {
    var i := FirstFit(rs, pages);
    SubApart(rs[i], Range(rs[i].base, pages), x);
    if rs[i].pages > pages {
      SubApart(rs[i], Range(rs[i].base + PAGE * pages, rs[i].pages - pages), x);
    } else {
      var rs' := Get(rs, pages).1;
      assert forall k | 0 <= k < |rs'| :: rs'[k] == rs[if k < i then k else k + 1];
    }
  }

  lemma AllocKeepsSound(s: State, n: nat)
    requires Sound(s) && Get(s.free, n).0 != 0
    ensures var (base, free') := Get(s.free, n);
            var s' := State(free', s.out + [Range(base, n)]);
            && Sound(s') && |free'| <= |s.free|
            && Total(free') + Total(s'.out) == Total(s.free) + Total(s.out)
            && (forall a :: Usable(s', a) <==> Usable(s, a))
  {
    hide Get, Total, Free, Apart, Contains, End;
    var (base, free') := Get(s.free, n);
    var got := Range(base, n);
    GetMovesPages(s.free, n);
    GetShrinks(s.free, n);
    TotalOfOne(got);
    TotalConcat(s.out, [got]);
    forall j | 0 <= j < |s.out| ensures AllApart(free', s.out[j]) && Apart(s.out[j], got) {
      GetKeepsApart(s.free, n, s.out[j]);
    }
    forall a ensures Usable(State(free', s.out + [got]), a) <==> Usable(s, a) {
      FreeAppended(s.out, got, a);
    }
  }

  lemma GetShrinks(rs: seq<Range>, pages: nat)
    ensures |Get(rs, pages).1| <= |rs|
  {}

  lemma TotalOfOne(r: Range)
    ensures Total([r]) == r.pages
  {}

  // Returning a range keeps all free ranges apart from what they and it are apart from.
  lemma AddMergeKeepsApart(rs: seq<Range>, max: nat, r: Range, x: Range)
    requires Valid(rs) && AllApart(rs, x) && Apart(r, x) && AddMerge(rs, max, r.base, r.pages).Some?
    ensures AllApart(AddMerge(rs, max, r.base, r.pages).value, x)
  {
    var i := FirstAt(rs, End(r));
    if i < |rs| {
      assert Apart(rs[i], x) && Apart(Range(r.base, rs[i].pages + r.pages), x);
    }
  }

  // The front, the back and the part of a range between them.
  lemma ThreeParts(r: Range, skip: nat, n: nat, a: nat)
    requires skip + n <= r.pages
    ensures var f, p, b := Front(r, skip), Part(r, skip, n), Back(r, skip + n);
            && (Contains(r, a) <==> Contains(f, a) || Contains(p, a) || Contains(b, a))
            && Apart(f, p) && Apart(p, f) && Apart(f, b) && Apart(p, b) && Apart(b, p)
            && f.pages + p.pages + b.pages == r.pages
            && p.base >= r.base && b.base >= r.base
  {}

  lemma PartsApart(r: Range, skip: nat, n: nat, x: Range)
    requires skip + n <= r.pages && Apart(x, r)
    ensures Apart(x, Front(r, skip)) && Apart(x, Part(r, skip, n)) && Apart(x, Back(r, skip + n))
    ensures Apart(Front(r, skip), x) && Apart(Part(r, skip, n), x) && Apart(Back(r, skip + n), x)
  {}

  lemma DeallocKeepsSound(s: State, max: nat, k: nat, skip: nat, n: nat)
    requires Sound(s) && |s.free| <= max && Possible(s, max, Dealloc(k, skip, n))
    ensures var s' := Next(s, max, Dealloc(k, skip, n));
            && Sound(s') && |s'.free| <= max
            && Total(s'.free) + Total(s'.out) == Total(s.free) + Total(s.out)
            && (forall a :: Usable(s', a) <==> Usable(s, a))
  {
    hide Total, Free, Contains, End, Apart, Front, Part, Back, AddMerge;
    var r := s.out[k];
    var s' := Next(s, max, Dealloc(k, skip, n));
    DeallocKeepsApart(s, max, k, skip, n);
    ThreeParts(r, skip, n, 0);
    TotalSet(s.out, k, Front(r, skip));
    TotalOfOne(Back(r, skip + n));
    TotalConcat(s.out[k := Front(r, skip)], [Back(r, skip + n)]);
    PartReturned(s, max, k, skip, n);
    forall a ensures Usable(s', a) <==> Usable(s, a) {
      ThreeParts(r, skip, n, a);
      FreeSet(s.out, k, r, a);
      FreeSet(s.out, k, Front(r, skip), a);
      FreeAppended(s.out[k := Front(r, skip)], Back(r, skip + n), a);
    }
  }

  // The free ranges after the part has come back.
  lemma PartReturned(s: State, max: nat, k: nat, skip: nat, n: nat)
    requires Sound(s) && |s.free| <= max && Possible(s, max, Dealloc(k, skip, n))
    ensures var part := Part(s.out[k], skip, n);
            var free' := Next(s, max, Dealloc(k, skip, n)).free;
            && Valid(free') && Total(free') == Total(s.free) + part.pages && |free'| <= max
            && (forall a :: Free(free', a) <==> Free(s.free, a) || Contains(part, a))
  {
    var part := Part(s.out[k], skip, n);
    forall i | 0 <= i < |s.free| ensures Apart(s.free[i], part) {
      assert AllApart(s.free, s.out[k]);
      PartsApart(s.out[k], skip, n, s.free[i]);
    }
    AddMergeFreesPages(s.free, max, part);
  }

  lemma DeallocKeepsApart(s: State, max: nat, k: nat, skip: nat, n: nat)
    requires Sound(s) && Possible(s, max, Dealloc(k, skip, n))
    ensures var s' := Next(s, max, Dealloc(k, skip, n));
            && Disjoint(s'.out) && (forall j | 0 <= j < |s'.out| :: s'.out[j].base > 0)
            && (forall j | 0 <= j < |s'.out| :: AllApart(s'.free, s'.out[j]))
  {
    hide Apart, Front, Part, Back, AddMerge, End;
    var r, part := s.out[k], Part(s.out[k], skip, n);
    var s' := Next(s, max, Dealloc(k, skip, n));
    ThreeParts(r, skip, n, 0);
    BasesOfParts(r, skip, n);
    forall j | 0 <= j < |s.out| && j != k
      ensures Apart(s.out[j], Front(r, skip)) && Apart(Front(r, skip), s.out[j])
      ensures Apart(s.out[j], Back(r, skip + n)) && Apart(part, s.out[j])
    {
      ApartBothWays(s.out[j], r);
      PartsApart(r, skip, n, s.out[j]);
    }
    forall j | 0 <= j < |s'.out| ensures AllApart(s'.free, s'.out[j]) {
      if j == k || j == |s.out| {
        forall i | 0 <= i < |s.free| ensures Apart(s.free[i], s'.out[j]) {
          assert AllApart(s.free, r);
          PartsApart(r, skip, n, s.free[i]);
        }
      }
      AddMergeKeepsApart(s.free, max, part, s'.out[j]);
    }
  }

  lemma ApartBothWays(x: Range, y: Range)
    ensures Apart(x, y) == Apart(y, x)
  {}

  lemma BasesOfParts(r: Range, skip: nat, n: nat)
    requires skip + n <= r.pages
    ensures Front(r, skip).base == r.base && r.base <= Back(r, skip + n).base
    ensures Part(r, skip, n).pages == n && r.base <= Part(r, skip, n).base
  {}

  /**
   Page conservation over every run of allocations and returns: free and outstanding ranges stay disjoint, the
   pages add up to the same total, and the addresses they cover are the ones of the start.
  */
  lemma {:induction false} RunConserves(s: State, max: nat, es: seq<Event>)
    requires Sound(s) && |s.free| <= max && Run(s, max, es)
    ensures var s' := After(s, max, es);
            && Sound(s')
            && Total(s'.free) + Total(s'.out) == Total(s.free) + Total(s.out)
            && (forall a :: Usable(s', a) <==> Usable(s, a))
    decreases |es|
  {
    if es != [] {
      NextKeepsSound(s, max, es[0]);
      RunConserves(Next(s, max, es[0]), max, es[1..]);
    }
  }
}
