/**
 init_mmap: the physical page ranges are collected from the firmware's memory map, without page 0, without the
 pages for the processors' start-up code and without anything not marked usable. While that goes on, the pages of
 every descriptor are unmapped from where the firmware had them; splitting the large pages among them takes frames
 for page tables from the ranges collected so far.
 */
module PhysInit {
  import opened Wrappers
  import opened Pages
  import opened Mmap

  datatype Descriptor = Descriptor(kind: nat, start: nat, pages: nat)

  const EFI_LOADER_CODE := 1
  const EFI_LOADER_DATA := 2
  const EFI_BOOT_SERVICES_CODE := 3
  const EFI_BOOT_SERVICES_DATA := 4
  const EFI_CONVENTIONAL_MEMORY := 7
  const EFI_PERSISTENT_MEMORY := 14
  const EFI_MEM_TYPE_KERNEL := 0x8000_0000

  predicate UsableKind(kind: nat) {
    kind in {EFI_LOADER_CODE, EFI_LOADER_DATA, EFI_BOOT_SERVICES_CODE, EFI_BOOT_SERVICES_DATA,
             EFI_CONVENTIONAL_MEMORY, EFI_PERSISTENT_MEMORY}
  }

  // By number: loader code and data, boot services code and data, conventional and persistent memory.
  lemma UsableKinds(kind: nat)
    ensures UsableKind(kind) <==> 1 <= kind <= 4 || kind == 7 || kind == 14
  {}

  function Whole(d: Descriptor): Range { Range(d.start, d.pages) }

  // Pages of a start-up image of `size` bytes.
  function ImagePages(size: nat): (n: nat)
    ensures size <= PAGE * n < size + PAGE
  {
    if size % PAGE != 0 then size / PAGE + 1 else size / PAGE
  }

  // The first usable descriptor low and large enough gives up its front for the start-up image.
  predicate TakesImage(d: Descriptor, ap: Option<nat>, size: nat) {
    ap.None? && d.start <= 0xFF000 && size <= PAGE * d.pages
  }

  // What is left of a usable descriptor; no pages, if nothing is.
  function Rest(d: Descriptor, ap: Option<nat>, size: nat): Range {
    var r := if TakesImage(d, ap, size) then Range(d.start + PAGE * ImagePages(size), d.pages - ImagePages(size))
      else Whole(d);
    if TakesImage(d, ap, size) && r.pages == 0 then r
    else if r.base == 0 then (if r.pages < 2 then Range(PAGE, 0) else Range(PAGE, r.pages - 1))
    else r
  }

  // The page ranges, free and taken, and the address of the start-up image.
  datatype Setup = Setup(mem: State, ap: Option<nat>)

  // `n` frames taken for page tables, one by one; None if the ranges run out.
  function Taken(s: State, n: nat): Option<State> {
    if n == 0 then Some(s) else
    var t := Taken(s, n - 1);
    if t.None? || Get(t.value.free, 1).0 == 0 then None else Some(Next(t.value, |t.value.free|, Alloc(1)))
  }

  function TakenFor(s: State, ap: Option<nat>, n: nat): Option<Setup> {
    var t := Taken(s, n);
    if t.None? then None else Some(Setup(t.value, ap))
  }

  function Added(s: State, r: Range): State { s.(free := s.free + [r]) }

  // One descriptor, whose unmapping needs `need` frames; None is a panic.
  function Described(s: Setup, d: Descriptor, size: nat, need: nat, max: nat): Option<Setup> {
    if d.kind == EFI_MEM_TYPE_KERNEL then Some(s)
    else if !UsableKind(d.kind) then TakenFor(s.mem, s.ap, need)
    else
      var r := Rest(d, s.ap, size);
      var ap := if TakesImage(d, s.ap, size) then Some(d.start) else s.ap;
      if r.pages == 0 then Some(s.(ap := ap))
      else if |s.mem.free| >= max then None
      else TakenFor(Added(s.mem, r), ap, need)
  }

  // All descriptors; `needs` says how many frames the unmapping of each one takes.
  function Collect(ds: seq<Descriptor>, size: nat, needs: seq<nat>, max: nat): Option<Setup>
    requires |needs| >= |ds|
  {
    if ds == [] then Some(Setup(State([], []), None)) else
    var n := |ds| - 1;
    var s := Collect(ds[..n], size, needs, max);
    if s.None? then None else Described(s.value, ds[n], size, needs[n], max)
  }

  // The whole of init_mmap; the last need is for the pages that hold the memory map itself.
  function Initial(ds: seq<Descriptor>, size: nat, needs: seq<nat>, max: nat): Option<Setup>
    requires |needs| == |ds| + 1
  {
    var s := Collect(ds, size, needs, max);
    if s.None? || s.value.ap.None? then None else TakenFor(s.value.mem, s.value.ap, needs[|ds|])
  }

  // alloc_phys_pages(1), `n` times, as map_page calls it.
  method TakeFrames(m: MemoryMap, n: nat, ghost out: seq<Range>) returns (ok: bool, ghost out': seq<Range>)
    requires m.InBounds()
    modifies m`count, m.ranges
    ensures m.InBounds() && ok == Taken(State(old(m.Contents()), out), n).Some?
    ensures ok ==> State(m.Contents(), out') == Taken(State(old(m.Contents()), out), n).value
  {
    hide Get;
    out' := out;
    for i := 0 to n
      invariant m.InBounds() && Some(State(m.Contents(), out')) == Taken(State(old(m.Contents()), out), i)
    {
      var base := m.GetPages(1);
      if base == 0 {
        NoFrames(State(old(m.Contents()), out), i + 1, n);
        return false, out';
      }
      out' := out' + [Range(base, 1)];
    }
    ok := true;
  }

  // Once the ranges have run out there is no taking more.
  lemma {:induction false} NoFrames(s: State, n: nat, n': nat)
    requires n <= n' && Taken(s, n).None?
    ensures Taken(s, n').None?
    decreases n'
  {
    if n < n' {
      NoFrames(s, n, n' - 1);
    }
  }

  /** init_mmap. Not ok is a panic: too many ranges, no place for the image, or no frame for a page table. */
  method InitMmap(m: MemoryMap, ds: seq<Descriptor>, size: nat, needs: seq<nat>)
      returns (ok: bool, ap: Option<nat>, ghost out: seq<Range>)
    requires m.InBounds() && m.count == 0 && |needs| == |ds| + 1
    requires forall i | 0 <= i < |ds| :: ds[i].pages > 0
    modifies m`count, m.ranges
    ensures m.InBounds() && ok == Initial(ds, size, needs, m.ranges.Length).Some?
    ensures ok ==> Setup(State(m.Contents(), out), ap) == Initial(ds, size, needs, m.ranges.Length).value
  {
    hide Taken, Described;
    ghost var max := m.ranges.Length;
    ap, out, ok := None, [], true;
    for i := 0 to |ds|
      invariant m.InBounds()
      invariant Some(Setup(State(m.Contents(), out), ap)) == Collect(ds[..i], size, needs, max)
    {
      assert ds[..i + 1][..i] == ds[..i];
      ok, ap, out := Describe(m, ds[i], ap, size, needs[i], out);
      if !ok {
        CollectStops(ds, i + 1, size, needs, max);
        return;
      }
    }
    assert ds[..|ds|] == ds;
    if ap.None? {
      return false, ap, out;
    }
    ok, out := TakeFrames(m, needs[|ds|], out);
  }

  // The body of the loop.
  method Describe(m: MemoryMap, d: Descriptor, image: Option<nat>, size: nat, need: nat, ghost was: seq<Range>)
      returns (ok: bool, ap: Option<nat>, ghost out: seq<Range>)
    requires m.InBounds() && d.pages > 0
    modifies m`count, m.ranges
    ensures var r := Described(Setup(State(old(m.Contents()), was), image), d, size, need, m.ranges.Length);
            m.InBounds() && ok == r.Some? && (ok ==> Setup(State(m.Contents(), out), ap) == r.value)
  {
    hide Taken;
    ap, out, ok := image, was, true;
    if d.kind == EFI_MEM_TYPE_KERNEL {
      return;
    }
    if UsableKind(d.kind) {
      var start, pages := d.start, d.pages;
      if ap.None? && start <= 0xFF000 && size <= PAGE * pages {
        ap := Some(start);
        var pgcnt := if size % PAGE != 0 then size / PAGE + 1 else size / PAGE;
        if pages == pgcnt {
          return;
        }
        pages, start := pages - pgcnt, start + PAGE * pgcnt;
      }
      if start == 0 {
        if pages < 2 {
          return;
        }
        pages, start := pages - 1, start + PAGE;
      }
      ok := m.AddRange(start, pages);
      if !ok {
        return;
      }
    }
    ok, out := TakeFrames(m, need, was);
  }

  // A panic ends it.
  lemma {:induction false} CollectStops(ds: seq<Descriptor>, i: nat, size: nat, needs: seq<nat>, max: nat)
    requires i <= |ds| <= |needs| && Collect(ds[..i], size, needs, max).None?
    ensures Collect(ds, size, needs, max).None?
    decreases |ds|
  {
    if i == |ds| {
      assert ds[..i] == ds;
    } else {
      assert ds[..|ds| - 1][..i] == ds[..i];
      CollectStops(ds[..|ds| - 1], i, size, needs, max);
    }
  }

  // ----- what the ranges cover -----

  ghost predicate UsableMemory(ds: seq<Descriptor>, a: nat) {
    exists i :: 0 <= i < |ds| && UsableKind(ds[i].kind) && Contains(Whole(ds[i]), a)
  }

  // Descriptors as the firmware promises them: whole pages, not empty, not overlapping.
  ghost predicate WellFormed(ds: seq<Descriptor>) {
    && (forall i | 0 <= i < |ds| :: ds[i].pages > 0 && ds[i].start % PAGE == 0)
    && (forall i, j | 0 <= i < j < |ds| :: Apart(Whole(ds[i]), Whole(ds[j])))
  }

  predicate InImage(ap: Option<nat>, size: nat, a: nat) {
    ap.Some? && ap.value <= a < ap.value + PAGE * ImagePages(size)
  }

  // A descriptor's rest holds its addresses but those of page 0 and of the image it took.
  lemma RestCovers(d: Descriptor, ap: Option<nat>, size: nat, a: nat)
    requires d.pages > 0 && d.start % PAGE == 0
    ensures var r := Rest(d, ap, size);
            && (Contains(r, a) <==> Contains(Whole(d), a) && a >= PAGE
                                    && !(TakesImage(d, ap, size) && InImage(Some(d.start), size, a)))
            && (r.pages > 0 ==> r.base > 0 && d.start <= r.base && End(r) <= End(Whole(d)))
  {}

  lemma UsableLast(ds: seq<Descriptor>, a: nat)
    requires ds != []
    ensures var d := ds[|ds| - 1];
            UsableMemory(ds, a) <==> UsableMemory(ds[..|ds| - 1], a) || (UsableKind(d.kind) && Contains(Whole(d), a))
  {
    var ds' := ds[..|ds| - 1];
    if UsableMemory(ds', a) {
      var i :| 0 <= i < |ds'| && UsableKind(ds'[i].kind) && Contains(Whole(ds'[i]), a);
      assert UsableKind(ds[i].kind) && Contains(Whole(ds[i]), a);
    }
    if UsableMemory(ds, a) {
      var i :| 0 <= i < |ds| && UsableKind(ds[i].kind) && Contains(Whole(ds[i]), a);
      assert i < |ds'| ==> UsableKind(ds'[i].kind) && Contains(Whole(ds'[i]), a);
    }
  }

  // ----- frames taken meanwhile -----

  /** Taking frames fails exactly when there are fewer free pages; else it moves them and changes nothing else. */
  lemma {:induction false} TakenMovesPages(s: State, n: nat)
    requires Sound(s)
    ensures Taken(s, n).Some? <==> Total(s.free) >= n
    ensures Taken(s, n).Some? ==>
              var t := Taken(s, n).value;
              && Sound(t) && |t.free| <= |s.free|
              && Total(t.free) + n == Total(s.free) && Total(t.out) == Total(s.out) + n
              && (forall a :: Usable(t, a) <==> Usable(s, a))
  {
    hide Sound, Usable, Total, Get;
    if n > 0 {
      TakenMovesPages(s, n - 1);
      if Total(s.free) >= n - 1 {
        var t := Taken(s, n - 1).value;
        FrameIffPages(t);
        if Get(t.free, 1).0 != 0 {
          NextKeepsSound(t, |t.free|, Alloc(1));
          TakenOne(t);
        }
      }
    }
  }

  lemma FrameIffPages(s: State)
    requires Sound(s)
    ensures Get(s.free, 1).0 != 0 <==> Total(s.free) > 0
  {
    GetFailsIffNoneFits(s.free, 1);
    if s.free != [] {
      assert s.free[0].pages > 0;
    }
  }

  lemma TakenOne(s: State)
    requires Sound(s) && Get(s.free, 1).0 != 0
    ensures Total(Get(s.free, 1).1) + 1 == Total(s.free) && |Get(s.free, 1).1| <= |s.free|
  {
    GetMovesPages(s.free, 1);
    GetShrinks(s.free, 1);
  }

  // A new range that shares no address with what is there.
  lemma AddedKeepsSound(s: State, r: Range)
    requires Sound(s) && r.pages > 0 && r.base > 0 && forall a: nat :: !(Usable(s, a) && Contains(r, a))
    ensures Sound(Added(s, r)) && Total(Added(s, r).free) == Total(s.free) + r.pages
    ensures forall a: nat :: Usable(Added(s, r), a) <==> Usable(s, a) || Contains(r, a)
  {
    TotalOfOne(r);
    TotalConcat(s.free, [r]);
    forall a: nat ensures Usable(Added(s, r), a) <==> Usable(s, a) || Contains(r, a) {
      FreeAppended(s.free, r, a);
    }
    AddedApart(s, r);
  }

  lemma AddedApart(s: State, r: Range)
    requires Sound(s) && r.pages > 0 && r.base > 0 && forall a: nat :: !(Usable(s, a) && Contains(r, a))
    ensures Sound(Added(s, r))
  {
    hide Contains, Apart;
    forall i | 0 <= i < |s.free| ensures Apart(s.free[i], r) {
      RangesApart(s.free, i, r);
    }
    forall i | 0 <= i < |s.out| ensures Apart(s.out[i], r) && Apart(r, s.out[i]) {
      RangesApart(s.out, i, r);
    }
  }

  // ----- all descriptors -----

  // What init_mmap keeps after each descriptor.
  ghost predicate Kept(ds: seq<Descriptor>, size: nat, s: Setup, max: nat) {
    && Sound(s.mem) && |s.mem.free| <= max
    && (forall a: nat :: Usable(s.mem, a) <==> UsableMemory(ds, a) && a >= PAGE && !InImage(s.ap, size, a))
    && (forall a: nat :: InImage(s.ap, size, a) ==> UsableMemory(ds, a))
    && (s.ap.Some? ==> s.ap.value <= 0xFF000)
  }

  lemma TakenKept(ds: seq<Descriptor>, size: nat, s: Setup, max: nat, n: nat)
    requires Kept(ds, size, s, max) && Taken(s.mem, n).Some?
    ensures Kept(ds, size, Setup(Taken(s.mem, n).value, s.ap), max)
  {
    hide Taken, Sound, Usable;
    TakenMovesPages(s.mem, n);
  }

  // A usable descriptor, its rest added to the free ranges if there is one.
  lemma RestKept(ds: seq<Descriptor>, size: nat, s: Setup, max: nat, d: Descriptor)
    requires Kept(ds, size, s, max) && WellFormed(ds + [d]) && UsableKind(d.kind)
    ensures var r := Rest(d, s.ap, size);
            var ap := if TakesImage(d, s.ap, size) then Some(d.start) else s.ap;
            && (r.pages == 0 ==> Kept(ds + [d], size, s.(ap := ap), max))
            && (r.pages > 0 && |s.mem.free| < max ==> Kept(ds + [d], size, Setup(Added(s.mem, r), ap), max))
  {
    hide Sound, Usable, Rest, TakesImage;
    var r := Rest(d, s.ap, size);
    var ap := if TakesImage(d, s.ap, size) then Some(d.start) else s.ap;
    DescriptorFresh(ds, d);
    ImageLow(d, s.ap, size);
    forall a: nat
      ensures UsableMemory(ds + [d], a) <==> UsableMemory(ds, a) || Contains(Whole(d), a)
      ensures InImage(ap, size, a) <==>
              InImage(s.ap, size, a) || (TakesImage(d, s.ap, size) && InImage(Some(d.start), size, a))
      ensures TakesImage(d, s.ap, size) && InImage(Some(d.start), size, a) ==> Contains(Whole(d), a)
      ensures Contains(r, a) <==> Contains(Whole(d), a) && a >= PAGE
                                  && !(TakesImage(d, s.ap, size) && InImage(Some(d.start), size, a))
      ensures !(UsableMemory(ds, a) && Contains(Whole(d), a))
    {
      UsableWith(ds, d, a);
      RestCovers(d, s.ap, size, a);
      ImageInside(d, s.ap, size, a);
    }
    if r.pages > 0 {
      RestCovers(d, s.ap, size, 0);
      AddedKeepsSound(s.mem, r);
    } else {
      NothingInNothing(r);
    }
  }

  lemma NothingInNothing(r: Range)
    requires r.pages == 0
    ensures forall a: nat :: !Contains(r, a)
  {}

  lemma ImageLow(d: Descriptor, ap: Option<nat>, size: nat)
    ensures TakesImage(d, ap, size) ==> ap.None? && d.start <= 0xFF000
  {}

  lemma ImageInside(d: Descriptor, ap: Option<nat>, size: nat, a: nat)
    requires d.pages > 0
    ensures TakesImage(d, ap, size) && InImage(Some(d.start), size, a) ==> Contains(Whole(d), a)
  {}

  lemma UsableWith(ds: seq<Descriptor>, d: Descriptor, a: nat)
    ensures UsableMemory(ds + [d], a) <==> UsableMemory(ds, a) || (UsableKind(d.kind) && Contains(Whole(d), a))
  {
    UsableLast(ds + [d], a);
    assert (ds + [d])[..|ds|] == ds;
  }

  lemma DescriptorFresh(ds: seq<Descriptor>, d: Descriptor)
    requires WellFormed(ds + [d])
    ensures WellFormed(ds) && d.pages > 0 && d.start % PAGE == 0
    ensures forall a: nat :: !(UsableMemory(ds, a) && Contains(Whole(d), a))
  {
    var all := ds + [d];
    assert all[|ds|] == d && forall i | 0 <= i < |ds| :: all[i] == ds[i];
    forall a: nat | UsableMemory(ds, a) ensures !Contains(Whole(d), a) {
      var i :| 0 <= i < |ds| && UsableKind(ds[i].kind) && Contains(Whole(ds[i]), a);
      assert Apart(Whole(all[i]), Whole(all[|ds|]));
    }
  }

  lemma DescribedKept(ds: seq<Descriptor>, size: nat, s: Setup, max: nat, d: Descriptor, need: nat)
    requires Kept(ds, size, s, max) && WellFormed(ds + [d]) && Described(s, d, size, need, max).Some?
    ensures Kept(ds + [d], size, Described(s, d, size, need, max).value, max)
  {
    hide Kept, Taken, Rest, TakesImage;
    if UsableKind(d.kind) {
      var r := Rest(d, s.ap, size);
      var ap := if TakesImage(d, s.ap, size) then Some(d.start) else s.ap;
      RestKept(ds, size, s, max, d);
      if r.pages > 0 {
        TakenKept(ds + [d], size, Setup(Added(s.mem, r), ap), max, need);
      }
    } else {
      UnusableKept(ds, size, s, max, d);
      if d.kind != EFI_MEM_TYPE_KERNEL {
        TakenKept(ds + [d], size, s, max, need);
      }
    }
  }

  lemma UnusableKept(ds: seq<Descriptor>, size: nat, s: Setup, max: nat, d: Descriptor)
    requires Kept(ds, size, s, max) && !UsableKind(d.kind)
    ensures Kept(ds + [d], size, s, max)
  {
    hide Sound, Usable;
    forall a: nat ensures UsableMemory(ds + [d], a) <==> UsableMemory(ds, a) {
      UsableWith(ds, d, a);
    }
  }

  /**
   After any number of descriptors, and however many frames their unmapping took: free and taken pages do not
   overlap, and together they are the usable memory described so far less page 0 and the image.
  */
  lemma {:induction false} CollectKept(ds: seq<Descriptor>, size: nat, needs: seq<nat>, max: nat)
    requires WellFormed(ds) && |needs| >= |ds| && Collect(ds, size, needs, max).Some?
    ensures Kept(ds, size, Collect(ds, size, needs, max).value, max)
    decreases |ds|
  {
    hide Kept, Described;
    if ds == [] {
      NothingKept(size, max);
    } else {
      var n := |ds| - 1;
      assert ds == ds[..n] + [ds[n]];
      CollectKept(ds[..n], size, needs, max);
      DescribedKept(ds[..n], size, Collect(ds[..n], size, needs, max).value, max, ds[n], needs[n]);
    }
  }

  lemma NothingKept(size: nat, max: nat)
    ensures Kept([], size, Setup(State([], []), None), max)
  {}

  lemma InitialKept(ds: seq<Descriptor>, size: nat, needs: seq<nat>, max: nat)
    requires WellFormed(ds) && |needs| == |ds| + 1 && Initial(ds, size, needs, max).Some?
    ensures Kept(ds, size, Initial(ds, size, needs, max).value, max)
  {
    hide Kept, Taken;
    CollectKept(ds, size, needs, max);
    TakenKept(ds, size, Collect(ds, size, needs, max).value, max, needs[|ds|]);
  }

  /** When a descriptor makes init_mmap panic: no room for its range, or fewer free pages than frames needed. */
  lemma DescribedPanicsIff(ds: seq<Descriptor>, size: nat, s: Setup, max: nat, d: Descriptor, need: nat)
    requires Kept(ds, size, s, max) && WellFormed(ds + [d])
    ensures var r := Rest(d, s.ap, size);
            var adds := UsableKind(d.kind) && r.pages > 0;
            Described(s, d, size, need, max).None? <==>
            if adds then |s.mem.free| >= max || Total(s.mem.free) + r.pages < need
            else !UsableKind(d.kind) && d.kind != EFI_MEM_TYPE_KERNEL && Total(s.mem.free) < need
  {
    hide Sound, Usable, Taken, Rest, Contains;
    var r := Rest(d, s.ap, size);
    TakenMovesPages(s.mem, need);
    DescriptorFresh(ds, d);
    if r.pages > 0 {
      RestCovers(d, s.ap, size, 0);
      forall a: nat ensures !(Usable(s.mem, a) && Contains(r, a)) {
        RestCovers(d, s.ap, size, a);
      }
      AddedKeepsSound(s.mem, r);
      TakenMovesPages(Added(s.mem, r), need);
    }
  }

  // Memory that the start-up image may go to the front of.
  predicate ImageFits(d: Descriptor, size: nat) {
    UsableKind(d.kind) && d.start <= 0xFF000 && size <= PAGE * d.pages
  }

  ghost predicate FirstFit(ds: seq<Descriptor>, size: nat, i: nat) {
    i < |ds| && ImageFits(ds[i], size) && forall j | 0 <= j < i :: !ImageFits(ds[j], size)
  }

  /** The image goes to the first descriptor of usable memory that is low and large enough, if there is one. */
  lemma {:induction false} ImageGoesFirst(ds: seq<Descriptor>, size: nat, needs: seq<nat>, max: nat)
    requires |needs| >= |ds| && Collect(ds, size, needs, max).Some?
    ensures var ap := Collect(ds, size, needs, max).value.ap;
            && (ap.None? <==> forall i | 0 <= i < |ds| :: !ImageFits(ds[i], size))
            && (forall i: nat | FirstFit(ds, size, i) :: ap == Some(ds[i].start))
    decreases |ds|
  {
    hide Taken, Rest;
    if ds != [] {
      var n := |ds| - 1;
      ImageGoesFirst(ds[..n], size, needs, max);
      var ap, ap' := Collect(ds[..n], size, needs, max).value.ap, Collect(ds, size, needs, max).value.ap;
      assert ap' == if ap.None? && ImageFits(ds[n], size) then Some(ds[n].start) else ap;
      assert forall i | 0 <= i < n :: ds[..n][i] == ds[i];
      forall i: nat | FirstFit(ds, size, i) ensures ap' == Some(ds[i].start) {
        assert i < n ==> FirstFit(ds[..n], size, i);
      }
    }
  }

  /**
   init_mmap comes to its end exactly if no descriptor makes it panic, one has room for the image, and in the end
   there are as many free pages as the last unmapping needs frames.
  */
  lemma InitialPanicsIff(ds: seq<Descriptor>, size: nat, needs: seq<nat>, max: nat)
    requires WellFormed(ds) && |needs| == |ds| + 1
    ensures Initial(ds, size, needs, max).Some? <==>
            && Collect(ds, size, needs, max).Some?
            && (exists i :: 0 <= i < |ds| && ImageFits(ds[i], size))
            && Total(Collect(ds, size, needs, max).value.mem.free) >= needs[|ds|]
  {
    hide Collect, Taken, ImageFits;
    if Collect(ds, size, needs, max).Some? {
      CollectKept(ds, size, needs, max);
      ImageGoesFirst(ds, size, needs, max);
      TakenMovesPages(Collect(ds, size, needs, max).value.mem, needs[|ds|]);
    }
  }

  // Ranges with no common address are apart.
  lemma RangesApart(rs: seq<Range>, i: nat, r: Range)
    requires i < |rs| && forall a: nat :: !(Free(rs, a) && Contains(r, a))
    ensures Apart(rs[i], r) && Apart(r, rs[i])
  {
    var a := if rs[i].base >= r.base then rs[i].base else r.base;
    if !Apart(rs[i], r) {
      assert Contains(rs[i], a) && Contains(r, a);
      assert Free(rs, a);
    }
  }

  /** Memory of any other kind, the kernel's own included, is never handed out. */
  lemma OtherMemoryKept(ds: seq<Descriptor>, size: nat, needs: seq<nat>, max: nat, i: nat, a: nat)
    requires WellFormed(ds) && |needs| == |ds| + 1 && Initial(ds, size, needs, max).Some?
    requires i < |ds| && !UsableKind(ds[i].kind) && Contains(Whole(ds[i]), a)
    ensures !Usable(Initial(ds, size, needs, max).value.mem, a) && !UsableKind(EFI_MEM_TYPE_KERNEL)
  {
    hide Initial;
    InitialKept(ds, size, needs, max);
    forall j | 0 <= j < |ds| && UsableKind(ds[j].kind) ensures !Contains(Whole(ds[j]), a) {
      if i < j {
        assert Apart(Whole(ds[i]), Whole(ds[j]));
      } else {
        assert Apart(Whole(ds[j]), Whole(ds[i]));
      }
    }
  }

  /**
   From init_mmap on, over every run, and with the page tables' frames counted as out: free and outstanding ranges
   are disjoint, their pages add up to the same number, and together they are exactly the usable memory less page 0
   and the image.
  */
  lemma PagesConserved(ds: seq<Descriptor>, size: nat, needs: seq<nat>, max: nat, es: seq<Event>)
    requires WellFormed(ds) && |needs| == |ds| + 1 && Initial(ds, size, needs, max).Some?
    requires Run(Initial(ds, size, needs, max).value.mem, max, es)
    ensures var s := Initial(ds, size, needs, max).value;
            var t := After(s.mem, max, es);
            && Sound(t) && Total(t.free) + Total(t.out) == Total(s.mem.free) + Total(s.mem.out)
            && (forall a: nat :: Usable(t, a) <==> UsableMemory(ds, a) && a >= PAGE && !InImage(s.ap, size, a))
  {
    hide Initial, Sound, Usable, Total;
    InitialKept(ds, size, needs, max);
    RunConserves(Initial(ds, size, needs, max).value.mem, max, es);
  }
}
