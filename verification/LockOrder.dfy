/**
 The order in which the memory code takes its mutexes, and what follows from it: any number of processors
 running any mix of entry points never get stuck, and every run ends with all of them done.
 */
module LockOrder {
  import opened Wrappers

  datatype Lock = VirtMmap | Heap | PhysMmapExt | Paging | PhysMmap | Ipcall

  function Rank(l: Lock): nat {
    match l
    case VirtMmap => 0
    case Heap => 1
    case PhysMmapExt => 2
    case Paging => 3
    case PhysMmap => 4
    case Ipcall => 4
  }

  // Use is work on what the mutex guards: the ranges of virtual or physical pages, the heap's list, the limit of the
  // physical ranges, the page tables, the function to call. A call round is a broadcast, then waiting for the
  // interrupt handlers of all other processors.
  datatype Op = Acquire(lock: Lock) | Release(lock: Lock) | Use(lock: Lock) | Broadcast | AwaitAll

  // ----- what each function does with the mutexes, on each of its paths -----

  // A critical section: the work on the mutex's own data, and what else is done inside.
  function Section(l: Lock, inside: seq<Op>): seq<Op> { [Acquire(l), Use(l)] + inside + [Release(l)] }

  const CALL_ROUND := Section(Ipcall, [Broadcast, AwaitAll])
  const PHYS := Section(PhysMmap, [])

  // map_page with `tables` missing tables, unmap_page with none.
  function MapPage(tables: nat): seq<Op> { Section(Paging, Allocs(tables) + CALL_ROUND) }

  function Allocs(n: nat): seq<Op> { if n == 0 then [] else PHYS + Allocs(n - 1) }

  function MapPages(pages: seq<nat>): seq<Op> { if pages == [] then [] else MapPage(pages[0]) + MapPages(pages[1..]) }

  // free_phys_pages: merged into the map, no room to extend the map, or the map extended.
  datatype FreePhysPath = Merged | Full | Extended(tables: nat)

  function FreePhys(p: FreePhysPath): seq<Op> {
    match p
    case Merged => PHYS
    case Full => PHYS + Section(PhysMmapExt, [])
    case Extended(n) => PHYS + Section(PhysMmapExt, MapPage(n))
  }

  datatype KmallocPath = Fits | NoPages | Grows(pages: seq<nat>)

  function Kmalloc(p: KmallocPath): seq<Op> {
    match p
    case Fits => Section(Heap, [])
    case NoPages => Section(Heap, PHYS)
    case Grows(pages) => Section(Heap, PHYS + MapPages(pages))
  }

  // kfree, with or without the tail trim.
  function Kfree(trim: Option<FreePhysPath>): seq<Op> {
    Section(Heap, if trim.None? then [] else FreePhys(trim.value))
  }

  datatype KreallocPath =
    | InPlace | MoveFails(alloc: KmallocPath) | Moves(alloc: KmallocPath, trim: Option<FreePhysPath>)

  function Krealloc(p: KreallocPath): seq<Op> {
    Section(Heap, []) +
    match p
    case InPlace => []
    case MoveFails(a) => Kmalloc(a)
    case Moves(a, t) => Kmalloc(a) + Kfree(t)
  }

  // virt_mmap_reduce may resize the range array.
  function MayResize(p: Option<KreallocPath>): seq<Op> { if p.None? then [] else Krealloc(p.value) }

  function AllocVirt(reduce: Option<KreallocPath>): seq<Op> { Section(VirtMmap, MayResize(reduce)) }

  // free_virt_pages grows the array and tries again as long as there is no room.
  function FreeVirt(grows: seq<KreallocPath>, last: Option<KreallocPath>): seq<Op> {
    if grows == [] then Section(VirtMmap, MayResize(last))
    else Section(VirtMmap, Krealloc(grows[0])) + FreeVirt(grows[1..], last)
  }

  datatype Entry =
    | KmallocCall(malloc: KmallocPath)
    | KfreeCall(trim: Option<FreePhysPath>)
    | KreallocCall(realloc: KreallocPath)
    | CreateVirtMapping(reduce: Option<KreallocPath>, pages: seq<nat>)
    | DeleteVirtMapping(count: nat, grows: seq<KreallocPath>, last: Option<KreallocPath>)

  function UnmapPages(count: nat): seq<Op> { if count == 0 then [] else MapPage(0) + UnmapPages(count - 1) }

  function Ops(e: Entry): seq<Op> {
    match e
    case KmallocCall(p) => Kmalloc(p)
    case KfreeCall(t) => Kfree(t)
    case KreallocCall(p) => Krealloc(p)
    case CreateVirtMapping(r, pages) => AllocVirt(r) + MapPages(pages)
    case DeleteVirtMapping(n, g, l) => UnmapPages(n) + FreeVirt(g, l)
  }

  function Program(es: seq<Entry>): seq<Op> { if es == [] then [] else Ops(es[0]) + Program(es[1..]) }

  // ----- the discipline -----

  // The mutexes held after `ops`, provided each acquire ranks above all held, each release is of the latest one, and
  // each use is of one that is held.
  function Held(held: seq<Lock>, ops: seq<Op>): Option<seq<Lock>>
    decreases |ops|
  {
    if ops == [] then Some(held)
    else match ops[0]
      case Acquire(l) => if forall h | h in held :: Rank(h) < Rank(l) then Held(held + [l], ops[1..]) else None
      case Release(l) => if held != [] && held[|held| - 1] == l then Held(held[..|held| - 1], ops[1..]) else None
      case Use(l) => if l in held then Held(held, ops[1..]) else None
      case Broadcast => if Ipcall in held && |ops| > 1 && ops[1] == AwaitAll then Held(held, ops[1..]) else None
      case AwaitAll => if Ipcall in held then Held(held, ops[1..]) else None
  }

  // From any set of mutexes ranked below `r` the operations are in order and end with the same set.
  ghost predicate Nested(r: nat, ops: seq<Op>) {
    forall held: seq<Lock> | (forall h | h in held :: Rank(h) < r) :: Held(held, ops) == Some(held)
  }

  lemma {:induction false} HeldConcat(held: seq<Lock>, a: seq<Op>, b: seq<Op>)
    requires Held(held, a).Some?
    ensures Held(held, a + b) == Held(Held(held, a).value, b)
    decreases |a|
  {
    if a == [] {
      assert a + b == b;
    } else {
      assert (a + b)[1..] == a[1..] + b;
      match a[0]
      case Acquire(l) => HeldConcat(held + [l], a[1..], b);
      case Release(l) => HeldConcat(held[..|held| - 1], a[1..], b);
      case _ => HeldConcat(held, a[1..], b);
    }
  }

  lemma NestedConcat(r: nat, a: seq<Op>, b: seq<Op>)
    requires Nested(r, a) && Nested(r, b)
    ensures Nested(r, a + b)
  {
    forall held: seq<Lock> | forall h | h in held :: Rank(h) < r ensures Held(held, a + b) == Some(held) {
      HeldConcat(held, a, b);
    }
  }

  lemma NestedWeaken(r: nat, r': nat, ops: seq<Op>)
    requires Nested(r, ops) && r' <= r
    ensures Nested(r', ops)
  {}

  // A critical section around operations that end with the mutexes they began with.
  lemma SectionHeld(held: seq<Lock>, l: Lock, inside: seq<Op>)
    requires (forall h | h in held :: Rank(h) < Rank(l)) && Held(held + [l], inside) == Some(held + [l])
    ensures Held(held, Section(l, inside)) == Some(held)
  {
    var all, inner := Section(l, inside), held + [l];
    assert all[1..] == [Use(l)] + (inside + [Release(l)]);
    assert all[1..][1..] == inside + [Release(l)];
    HeldConcat(inner, inside, [Release(l)]);
    assert [Release(l)][1..] == [];
    assert inner[..|inner| - 1] == held;
    assert Held(inner, [Release(l)]) == Some(held);
  }

  // ... and that take only higher-ranked ones.
  lemma NestedSection(l: Lock, inside: seq<Op>)
    requires Nested(Rank(l) + 1, inside)
    ensures Nested(Rank(l), Section(l, inside))
  {
    forall held: seq<Lock> | forall h | h in held :: Rank(h) < Rank(l)
      ensures Held(held, Section(l, inside)) == Some(held)
    {
      SectionHeld(held, l, inside);
    }
  }

  // ----- every path of every entry point keeps the order -----

  lemma NestedNothing(r: nat)
    ensures Nested(r, [])
  {}

  lemma PhysNested()
    ensures Nested(4, PHYS)
  {
    NestedNothing(5);
    NestedSection(PhysMmap, []);
  }

  lemma CallRoundNested()
    ensures Nested(4, CALL_ROUND)
  {
    forall held: seq<Lock> | forall h | h in held :: Rank(h) < 4 ensures Held(held, CALL_ROUND) == Some(held) {
      var inner, round := held + [Ipcall], [Broadcast, AwaitAll];
      assert Ipcall in inner;
      assert round[1..] == [AwaitAll] && [AwaitAll][1..] == [];
      assert Held(inner, [AwaitAll]) == Some(inner);
      SectionHeld(held, Ipcall, round);
    }
  }

  lemma AllocsNested(n: nat)
    ensures Nested(4, Allocs(n))
  {
    if n == 0 {
      NestedNothing(4);
    } else {
      PhysNested();
      AllocsNested(n - 1);
      NestedConcat(4, PHYS, Allocs(n - 1));
    }
  }

  lemma MapPageNested(tables: nat)
    ensures Nested(3, MapPage(tables))
  {
    AllocsNested(tables);
    CallRoundNested();
    NestedConcat(4, Allocs(tables), CALL_ROUND);
    NestedSection(Paging, Allocs(tables) + CALL_ROUND);
  }

  lemma MapPagesNested(pages: seq<nat>)
    ensures Nested(3, MapPages(pages))
  {
    if pages == [] {
      NestedNothing(3);
    } else {
      MapPageNested(pages[0]);
      MapPagesNested(pages[1..]);
      NestedConcat(3, MapPage(pages[0]), MapPages(pages[1..]));
    }
  }

  lemma FreePhysNested(p: FreePhysPath)
    ensures Nested(2, FreePhys(p))
  {
    PhysNested();
    NestedWeaken(4, 2, PHYS);
    match p
    case Merged =>
    case Full =>
      NestedNothing(3);
      NestedSection(PhysMmapExt, []);
      NestedConcat(2, PHYS, Section(PhysMmapExt, []));
    case Extended(n) =>
      MapPageNested(n);
      NestedSection(PhysMmapExt, MapPage(n));
      NestedConcat(2, PHYS, Section(PhysMmapExt, MapPage(n)));
  }

  lemma KmallocNested(p: KmallocPath)
    ensures Nested(1, Kmalloc(p))
  {
    PhysNested();
    match p
    case Fits =>
      NestedNothing(2);
      NestedSection(Heap, []);
    case NoPages =>
      NestedWeaken(4, 2, PHYS);
      NestedSection(Heap, PHYS);
    case Grows(pages) =>
      NestedWeaken(4, 3, PHYS);
      MapPagesNested(pages);
      NestedConcat(3, PHYS, MapPages(pages));
      NestedWeaken(3, 2, PHYS + MapPages(pages));
      NestedSection(Heap, PHYS + MapPages(pages));
  }

  lemma KfreeNested(trim: Option<FreePhysPath>)
    ensures Nested(1, Kfree(trim))
  {
    if trim.Some? {
      FreePhysNested(trim.value);
    } else {
      NestedNothing(2);
    }
    NestedSection(Heap, if trim.None? then [] else FreePhys(trim.value));
  }

  lemma KreallocNested(p: KreallocPath)
    ensures Nested(1, Krealloc(p))
  {
    KmallocNested(Fits);
    match p
    case InPlace =>
      assert Krealloc(p) == Kmalloc(Fits);
    case MoveFails(a) =>
      KmallocNested(a);
      NestedConcat(1, Kmalloc(Fits), Kmalloc(a));
    case Moves(a, t) =>
      KmallocNested(a);
      KfreeNested(t);
      NestedConcat(1, Kmalloc(a), Kfree(t));
      NestedConcat(1, Kmalloc(Fits), Kmalloc(a) + Kfree(t));
  }

  lemma ResizeNested(p: Option<KreallocPath>)
    ensures Nested(0, Section(VirtMmap, MayResize(p)))
  {
    if p.Some? {
      KreallocNested(p.value);
    } else {
      NestedNothing(1);
    }
    NestedSection(VirtMmap, MayResize(p));
  }

  lemma FreeVirtNested(grows: seq<KreallocPath>, last: Option<KreallocPath>)
    ensures Nested(0, FreeVirt(grows, last))
  {
    if grows == [] {
      ResizeNested(last);
    } else {
      ResizeNested(Some(grows[0]));
      FreeVirtNested(grows[1..], last);
      NestedConcat(0, Section(VirtMmap, Krealloc(grows[0])), FreeVirt(grows[1..], last));
    }
  }

  lemma UnmapPagesNested(count: nat)
    ensures Nested(3, UnmapPages(count))
  {
    if count == 0 {
      NestedNothing(3);
    } else {
      MapPageNested(0);
      UnmapPagesNested(count - 1);
      NestedConcat(3, MapPage(0), UnmapPages(count - 1));
    }
  }

  /**
   Every path of every entry point acquires in strictly rising order, works on data only inside the section of the
   mutex that guards it, and ends holding nothing.
  */
  lemma EntryInOrder(e: Entry)
    ensures Nested(0, Ops(e))
  {
    match e
    case KmallocCall(p) => KmallocNested(p); NestedWeaken(1, 0, Kmalloc(p));
    case KfreeCall(t) => KfreeNested(t); NestedWeaken(1, 0, Kfree(t));
    case KreallocCall(p) => KreallocNested(p); NestedWeaken(1, 0, Krealloc(p));
    case CreateVirtMapping(r, pages) =>
      ResizeNested(r);
      MapPagesNested(pages);
      NestedWeaken(3, 0, MapPages(pages));
      NestedConcat(0, AllocVirt(r), MapPages(pages));
    case DeleteVirtMapping(n, g, l) =>
      UnmapPagesNested(n);
      NestedWeaken(3, 0, UnmapPages(n));
      FreeVirtNested(g, l);
      NestedConcat(0, UnmapPages(n), FreeVirt(g, l));
  }

  lemma ProgramInOrder(es: seq<Entry>)
    ensures Held([], Program(es)) == Some([])
  {
    if es != [] {
      EntryInOrder(es[0]);
      ProgramInOrder(es[1..]);
      HeldConcat([], Ops(es[0]), Program(es[1..]));
    }
  }

  // ----- the processors -----

  datatype Cpu = Cpu(held: seq<Lock>, ops: seq<Op>)

  // `owed` are the processors whose interrupt handler has yet to run for the open call round.
  datatype State = State(cpus: seq<Cpu>, owner: map<Lock, nat>, owed: set<nat>)

  // A processor's next operation, or its interrupt handler; handlers run whatever the processor is doing.
  datatype Action = Go(cpu: nat) | Respond(cpu: nat)

  // The processors a broadcast of `i` interrupts, of the first `n`.
  function Others(n: nat, i: nat): (r: set<nat>)
    ensures forall k: nat :: k in r <==> k < n && k != i
    ensures |r| <= n
  {
    if n == 0 then {} else if n - 1 == i then Others(n - 1, i) else Others(n - 1, i) + {n - 1}
  }

  function Init(programs: seq<seq<Entry>>): State {
    State(seq(|programs|, i requires 0 <= i < |programs| => Cpu([], Program(programs[i]))), map[], {})
  }

  predicate Enabled(s: State, a: Action) {
    match a
    case Respond(i) => i in s.owed
    case Go(i) =>
      i < |s.cpus| && s.cpus[i].ops != [] &&
      match s.cpus[i].ops[0]
      case Acquire(l) => l !in s.owner
      case Release(l) => s.cpus[i].held != []
      case Use(l) => true
      case Broadcast => true
      case AwaitAll => s.owed == {}
  }

  function Step(s: State, a: Action): State
    requires Enabled(s, a)
  {
    match a
    case Respond(i) => s.(owed := s.owed - {i})
    case Go(i) =>
      var c := s.cpus[i];
      match c.ops[0]
      case Acquire(l) => s.(cpus := s.cpus[i := Cpu(c.held + [l], c.ops[1..])], owner := s.owner[l := i])
      case Release(l) => s.(cpus := s.cpus[i := Cpu(c.held[..|c.held| - 1], c.ops[1..])], owner := s.owner - {l})
      case Broadcast => s.(cpus := s.cpus[i := c.(ops := c.ops[1..])], owed := Others(|s.cpus|, i))
      case Use(l) => s.(cpus := s.cpus[i := c.(ops := c.ops[1..])])
      case AwaitAll => s.(cpus := s.cpus[i := c.(ops := c.ops[1..])])
  }

  // What is left of every program keeps the order, given what the processor holds.
  ghost predicate Ordered(s: State) {
    forall i | 0 <= i < |s.cpus| :: Held(s.cpus[i].held, s.cpus[i].ops) == Some([])
  }

  predicate Owns(s: State, i: nat, l: Lock) { l in s.owner && s.owner[l] == i }

  // The mutex variables and the lists of held mutexes agree.
  ghost predicate Owned(s: State) {
    && (forall i, l | 0 <= i < |s.cpus| :: l in s.cpus[i].held <==> Owns(s, i, l))
    && (forall l | l in s.owner :: s.owner[l] < |s.cpus|)
    && (forall i | 0 <= i < |s.cpus| :: NoRepeat(s.cpus[i].held))
  }

  ghost predicate NoRepeat(held: seq<Lock>) {
    forall j, k | 0 <= j < k < |held| :: held[j] != held[k]
  }

  // Handlers run only for a caller that waits for them.
  ghost predicate Called(s: State) {
    && (forall k | k in s.owed :: k < |s.cpus|)
    && (s.owed != {} ==> Ipcall in s.owner && s.owner[Ipcall] < |s.cpus|
                         && s.cpus[s.owner[Ipcall]].ops != [] && s.cpus[s.owner[Ipcall]].ops[0] == AwaitAll)
  }

  ghost predicate Inv(s: State) { Ordered(s) && Owned(s) && Called(s) }

  lemma StepKeepsInv(s: State, a: Action)
    requires Inv(s) && Enabled(s, a)
    ensures Inv(Step(s, a))
  {
    OrderedStep(s, a);
    OwnedStep(s, a);
    CalledStep(s, a);
  }

  lemma OrderedStep(s: State, a: Action)
    requires Ordered(s) && Enabled(s, a)
    ensures Ordered(Step(s, a))
  {}

  lemma OwnedStep(s: State, a: Action)
    requires Ordered(s) && Owned(s) && Enabled(s, a)
    ensures Owned(Step(s, a))
  {
    if a.Go? && s.cpus[a.cpu].ops[0].Acquire? {
      OwnedAcquire(s, a.cpu);
    } else if a.Go? && s.cpus[a.cpu].ops[0].Release? {
      OwnedRelease(s, a.cpu);
    } else {
      OwnersAlone(s, Step(s, a));
    }
  }

  lemma OwnersAlone(s: State, s': State)
    requires Owned(s) && s'.owner == s.owner && |s'.cpus| == |s.cpus|
    requires forall i | 0 <= i < |s.cpus| :: s'.cpus[i].held == s.cpus[i].held
    ensures Owned(s')
  {
    forall i, l | 0 <= i < |s'.cpus| ensures l in s'.cpus[i].held <==> Owns(s', i, l) {
      assert l in s.cpus[i].held <==> Owns(s, i, l);
    }
  }

  lemma OwnedAcquire(s: State, i: nat)
    requires Owned(s) && Enabled(s, Go(i)) && s.cpus[i].ops[0].Acquire?
    ensures Owned(Step(s, Go(i)))
  {
    var s' := Step(s, Go(i));
    assert !Owns(s, i, s.cpus[i].ops[0].lock);
    forall k, m | 0 <= k < |s'.cpus| ensures m in s'.cpus[k].held <==> Owns(s', k, m) {
      assert m in s.cpus[k].held <==> Owns(s, k, m);
    }
  }

  lemma OwnedRelease(s: State, i: nat)
    requires Ordered(s) && Owned(s) && Enabled(s, Go(i)) && s.cpus[i].ops[0].Release?
    ensures Owned(Step(s, Go(i)))
  {
    hide Held;
    var s' := Step(s, Go(i));
    var l, held := s.cpus[i].ops[0].lock, s.cpus[i].held;
    assert held[|held| - 1] == l by { ReleaseOfLatest(s, i); }
    assert Owns(s, i, l);
    DropLast(held);
    forall k, m | 0 <= k < |s'.cpus| ensures m in s'.cpus[k].held <==> Owns(s', k, m) {
      assert m in s.cpus[k].held <==> Owns(s, k, m);
    }
  }

  lemma ReleaseOfLatest(s: State, i: nat)
    requires Ordered(s) && Enabled(s, Go(i)) && s.cpus[i].ops[0].Release?
    ensures s.cpus[i].held[|s.cpus[i].held| - 1] == s.cpus[i].ops[0].lock
  {}

  lemma DropLast(held: seq<Lock>)
    requires held != [] && NoRepeat(held)
    ensures var rest := held[..|held| - 1];
            NoRepeat(rest) && forall m :: m in rest <==> m in held && m != held[|held| - 1]
  {
    var rest := held[..|held| - 1];
    assert held == rest + [held[|held| - 1]];
  }

  lemma CalledStep(s: State, a: Action)
    requires Ordered(s) && Owned(s) && Called(s) && Enabled(s, a)
    ensures Called(Step(s, a))
  {
    if a.Go? {
      var c := s.cpus[a.cpu];
      if Ipcall in s.owner && s.owner[Ipcall] == a.cpu {
        if c.ops[0].Broadcast? {
          assert c.ops[1..][0] == AwaitAll;
        }
      } else {
        assert !Owns(s, a.cpu, Ipcall) && Ipcall !in c.held;
        assert Held(c.held, c.ops).Some?;
      }
    }
  }

  predicate Finished(s: State) { forall i | 0 <= i < |s.cpus| :: s.cpus[i].ops == [] }

  // The owner of a mutex that outranks all others can always go on.
  lemma TopOwnerMoves(s: State, l: Lock) returns (a: Action)
    requires Inv(s) && l in s.owner && forall m | m in s.owner :: Rank(m) <= Rank(l)
    ensures Enabled(s, a)
  {
    var i := s.owner[l];
    var c := s.cpus[i];
    assert Owns(s, i, l);
    assert l in c.held && c.ops != [];
    a := Go(i);
    if c.ops[0].AwaitAll? && s.owed != {} {
      var k :| k in s.owed;
      a := Respond(k);
    }
  }

  // A mutex in use that ranks highest among those in use.
  lemma TopLock(s: State) returns (l: Lock)
    requires exists m :: m in s.owner
    ensures l in s.owner && forall m | m in s.owner :: Rank(m) <= Rank(l)
  {
    if Ipcall in s.owner { l := Ipcall; }
    else if PhysMmap in s.owner { l := PhysMmap; }
    else if Paging in s.owner { l := Paging; }
    else if PhysMmapExt in s.owner { l := PhysMmapExt; }
    else if Heap in s.owner { l := Heap; }
    else { var m :| m in s.owner; l := VirtMmap; assert m == l; }
  }

  lemma SomebodyMoves(s: State) returns (a: Action)
    requires Inv(s) && !Finished(s)
    ensures Enabled(s, a)
  {
    if exists m :: m in s.owner {
      var l := TopLock(s);
      a := TopOwnerMoves(s, l);
    } else {
      var i :| 0 <= i < |s.cpus| && s.cpus[i].ops != [];
      assert s.cpus[i].held != [] ==> Owns(s, i, s.cpus[i].held[0]);
      a := Go(i);
    }
  }

  // ----- runs -----

  ghost predicate Run(s: State, acts: seq<Action>)
    decreases |acts|
  {
    acts == [] || (Enabled(s, acts[0]) && Run(Step(s, acts[0]), acts[1..]))
  }

  ghost function After(s: State, acts: seq<Action>): State
    requires Run(s, acts)
    decreases |acts|
  {
    if acts == [] then s else After(Step(s, acts[0]), acts[1..])
  }

  function OpsLeft(cs: seq<Cpu>): nat { if cs == [] then 0 else |cs[0].ops| + OpsLeft(cs[1..]) }

  // Steps that can still be taken: a broadcast makes room for as many handlers as there are processors.
  function Measure(s: State): nat { OpsLeft(s.cpus) * (|s.cpus| + 1) + |s.owed| }

  lemma {:induction false} OpsLeftSet(cs: seq<Cpu>, i: nat, c: Cpu)
    requires i < |cs|
    ensures OpsLeft(cs[i := c]) == OpsLeft(cs) - |cs[i].ops| + |c.ops|
  {
    if i == 0 {
      assert cs[i := c][1..] == cs[1..];
    } else {
      assert cs[i := c][1..] == cs[1..][i - 1 := c];
      OpsLeftSet(cs[1..], i - 1, c);
    }
  }

  lemma StepUsesMeasure(s: State, a: Action)
    requires Enabled(s, a)
    ensures Measure(Step(s, a)) < Measure(s)
  {
    var s' := Step(s, a);
    if a.Go? {
      OpsLeftSet(s.cpus, a.cpu, s'.cpus[a.cpu]);
      OneLess(OpsLeft(s.cpus), |s.cpus| + 1);
    }
  }

  lemma OneLess(k: nat, n: nat)
    requires k > 0
    ensures k * n == (k - 1) * n + n
  {}

  lemma InitKeepsInv(programs: seq<seq<Entry>>)
    ensures Inv(Init(programs))
  {
    forall i | 0 <= i < |programs| ensures Held([], Program(programs[i])) == Some([]) {
      ProgramInOrder(programs[i]);
    }
  }

  lemma {:induction false} RunKeepsInv(s: State, acts: seq<Action>)
    requires Inv(s) && Run(s, acts)
    ensures Inv(After(s, acts))
    ensures Measure(After(s, acts)) + |acts| <= Measure(s)
    decreases |acts|
  {
    if acts != [] {
      StepKeepsInv(s, acts[0]);
      StepUsesMeasure(s, acts[0]);
      RunKeepsInv(Step(s, acts[0]), acts[1..]);
    }
  }

  lemma FinishedHoldsNothing(s: State)
    requires Inv(s) && Finished(s)
    ensures s.owner == map[]
  {
    forall i | 0 <= i < |s.cpus| ensures s.cpus[i].held == [] {
      assert Held(s.cpus[i].held, []) == Some(s.cpus[i].held);
    }
    forall l ensures l !in s.owner {
      if l in s.owner {
        assert Owns(s, s.owner[l], l);
      }
    }
  }

  /**
   Deadlock freedom for any processors and programs: a run that cannot go on has finished every program, with
   all mutexes free, and no run is longer than a bound known at the start.
  */
  lemma {:induction false} NoDeadlock(programs: seq<seq<Entry>>, acts: seq<Action>)
    requires Run(Init(programs), acts)
    ensures |acts| <= Measure(Init(programs))
    ensures var s := After(Init(programs), acts);
            (forall a :: !Enabled(s, a)) ==> Finished(s) && s.owner == map[]
  {
    InitKeepsInv(programs);
    RunKeepsInv(Init(programs), acts);
    var s := After(Init(programs), acts);
    if Finished(s) {
      FinishedHoldsNothing(s);
    } else {
      var a := SomebodyMoves(s);
    }
  }

  /** A mutex is never held by two processors. */
  lemma OneOwner(programs: seq<seq<Entry>>, acts: seq<Action>, i: nat, j: nat, l: Lock)
    requires Run(Init(programs), acts)
    requires var s := After(Init(programs), acts);
             i < |s.cpus| && j < |s.cpus| && l in s.cpus[i].held && l in s.cpus[j].held
    ensures i == j
  {
    InitKeepsInv(programs);
    RunKeepsInv(Init(programs), acts);
    var s := After(Init(programs), acts);
    assert Owns(s, i, l) && Owns(s, j, l);
  }

  predicate AtUse(s: State, i: nat, l: Lock) { i < |s.cpus| && s.cpus[i].ops != [] && s.cpus[i].ops[0] == Use(l) }

  /** Race freedom: who works on what a mutex guards owns it, and no two processors do so at the same time. */
  lemma NoRace(programs: seq<seq<Entry>>, acts: seq<Action>, i: nat, l: Lock)
    requires Run(Init(programs), acts) && AtUse(After(Init(programs), acts), i, l)
    ensures var s := After(Init(programs), acts);
            Owns(s, i, l) && forall j: nat | AtUse(s, j, l) :: j == i
  {
    InitKeepsInv(programs);
    RunKeepsInv(Init(programs), acts);
    var s := After(Init(programs), acts);
    forall j: nat | AtUse(s, j, l) ensures Owns(s, j, l) {
      assert Held(s.cpus[j].held, s.cpus[j].ops).Some?;
    }
  }

  // ----- what the paths work on -----

  // How often the data of a mutex is worked on.
  function Uses(ops: seq<Op>, l: Lock): nat {
    if ops == [] then 0 else (if ops[0] == Use(l) then 1 else 0) + Uses(ops[1..], l)
  }

  function Sum(ns: seq<nat>): nat { if ns == [] then 0 else ns[0] + Sum(ns[1..]) }

  lemma {:induction false} UsesConcat(a: seq<Op>, b: seq<Op>, l: Lock)
    ensures Uses(a + b, l) == Uses(a, l) + Uses(b, l)
  {
    if a == [] {
      assert a + b == b;
    } else {
      assert (a + b)[1..] == a[1..] + b;
      UsesConcat(a[1..], b, l);
    }
  }

  lemma UsesOfSection(s: Lock, inside: seq<Op>, l: Lock)
    ensures Uses(Section(s, inside), l) == Uses(inside, l) + if l == s then 1 else 0
  {
    var all := Section(s, inside);
    assert all[1..] == [Use(s)] + (inside + [Release(s)]);
    assert all[1..][1..] == inside + [Release(s)];
    UsesConcat(inside, [Release(s)], l);
    assert [Release(s)][1..] == [];
  }

  lemma UsesOfRounds(l: Lock)
    ensures Uses(CALL_ROUND, l) == if l == Ipcall then 1 else 0
    ensures Uses(PHYS, l) == if l == PhysMmap then 1 else 0
  {
    assert [Broadcast, AwaitAll][1..] == [AwaitAll] && [AwaitAll][1..] == [];
    UsesOfSection(Ipcall, [Broadcast, AwaitAll], l);
    UsesOfSection(PhysMmap, [], l);
  }

  lemma {:induction false} UsesOfAllocs(n: nat, l: Lock)
    ensures Uses(Allocs(n), l) == if l == PhysMmap then n else 0
  {
    if n > 0 {
      UsesOfAllocs(n - 1, l);
      UsesOfRounds(l);
      UsesConcat(PHYS, Allocs(n - 1), l);
    }
  }

  /** One call of map_page: one edit of the tables, one call round, and one visit to the ranges for each new table. */
  lemma UsesOfMapPage(tables: nat, l: Lock)
    ensures Uses(MapPage(tables), l) == match l
                                        case Paging => 1
                                        case Ipcall => 1
                                        case PhysMmap => tables
                                        case _ => 0
  {
    UsesOfAllocs(tables, l);
    UsesOfRounds(l);
    UsesConcat(Allocs(tables), CALL_ROUND, l);
    UsesOfSection(Paging, Allocs(tables) + CALL_ROUND, l);
  }

  lemma {:induction false} UsesOfMapPages(pages: seq<nat>, l: Lock)
    ensures Uses(MapPages(pages), l) == match l
                                        case Paging => |pages|
                                        case Ipcall => |pages|
                                        case PhysMmap => Sum(pages)
                                        case _ => 0
  {
    if pages != [] {
      UsesOfMapPage(pages[0], l);
      UsesOfMapPages(pages[1..], l);
      UsesConcat(MapPage(pages[0]), MapPages(pages[1..]), l);
    }
  }

  /**
   kmalloc works on the heap once, on the physical ranges once if it has to grow and once more for each new table,
   and edits the tables once for each page.
  */
  lemma UsesOfKmalloc(p: KmallocPath, l: Lock)
    ensures var grown, looks := if p.Grows? then p.pages else [], if p.Fits? then 0 else 1;
            Uses(Kmalloc(p), l) == match l
                                   case Heap => 1
                                   case PhysMmap => looks + Sum(grown)
                                   case Paging => |grown|
                                   case Ipcall => |grown|
                                   case _ => 0
  {
    UsesOfRounds(l);
    match p
    case Fits => UsesOfSection(Heap, [], l);
    case NoPages => UsesOfSection(Heap, PHYS, l);
    case Grows(pages) =>
      UsesOfMapPages(pages, l);
      UsesConcat(PHYS, MapPages(pages), l);
      UsesOfSection(Heap, PHYS + MapPages(pages), l);
  }

  /** kfree works on the heap once, and where it trims on the ranges, which may have to be extended by a page. */
  lemma UsesOfKfree(trim: Option<FreePhysPath>, l: Lock)
    ensures var tables := if trim.Some? && trim.value.Extended? then trim.value.tables else 0;
            Uses(Kfree(trim), l) == match l
                                    case Heap => 1
                                    case PhysMmap => if trim.Some? then 1 + tables else 0
                                    case PhysMmapExt => if trim.Some? && !trim.value.Merged? then 1 else 0
                                    case Paging => if trim.Some? && trim.value.Extended? then 1 else 0
                                    case Ipcall => if trim.Some? && trim.value.Extended? then 1 else 0
                                    case _ => 0
  {
    UsesOfRounds(l);
    if trim.Some? && trim.value.Extended? {
      UsesOfMapPage(trim.value.tables, l);
      UsesOfSection(PhysMmapExt, MapPage(trim.value.tables), l);
      UsesConcat(PHYS, Section(PhysMmapExt, MapPage(trim.value.tables)), l);
    } else if trim.Some? && trim.value.Full? {
      UsesOfSection(PhysMmapExt, [], l);
      UsesConcat(PHYS, Section(PhysMmapExt, []), l);
    }
    UsesOfSection(Heap, if trim.None? then [] else FreePhys(trim.value), l);
  }
}
