/**
 N processors that update the page tables and invalidate each other's TLBs by inter-processor calls
 (section 4.10.5 of the Intel SDM, volume 3A). One action is one access to shared memory, one interrupt step
 or one act of the TLB hardware; any processor may take the next one.
 */
module Shootdown {
  import opened Wrappers
  import opened PageTables

  // What inter_processor_call runs: __invalidate_tlbs, or any other function.
  datatype Fun = InvalidateTlbs | Other(id: nat)

  // map_page and unmap_page change one page; a plain inter-processor call takes no other lock.
  datatype Job = Update(page: Page, frame: Option<Frame>) | Call(id: nat) {
    function Function(): Fun { if Update? then InvalidateTlbs else Other(id) }
  }

  datatype Pc =
    | Boot | Barrier | Idle
    | WantPaging | Editing | SetAddr | LocalInvlpg
    | WantIpcall | SetFun | ResetCount | Broadcasting | Waiting | ReleaseIpcall | ReleasePaging

  // The receiving interrupt handler: entered, function loaded, address loaded, function run, counted.
  datatype Isr = NoIsr | Entered | Loaded(fun: Fun) | Aimed(page: Page) | Ran | Tail

  // `answered` and `ran` are history: counted in this round, and every function run so far.
  datatype Cpu = Cpu(pc: Pc, job: Job, isr: Isr, pending: nat, tlb: map<Page, Frame>, answered: bool, ran: seq<Fun>)

  // The locks name their holder, None being unlocked; `calls` lists the rounds broadcast so far with their caller.
  datatype State = State(
    cpus: seq<Cpu>, tables: map<Page, Frame>, working: nat,
    paging: Option<nat>, ipcall: Option<nat>,
    addr: Page, fun: Fun, count: nat, calls: seq<(nat, Fun)>)

  datatype Action =
    | Start(cpu: nat, job: Job) | Main(cpu: nat) | Interrupt(cpu: nat)
    | Fill(cpu: nat, page: Page) | Evict(cpu: nat, page: Page)

  function Init(n: nat, tables: map<Page, Frame>): State {
    State(seq(n, _ => Cpu(Boot, Call(0), NoIsr, 0, map[], false, [])), tables, 0, None, None, Page(0, 0, 0, 0),
        Other(0), 0, [])
  }

  // ----- the steps -----

  predicate Enabled(s: State, a: Action) {
    a.cpu < |s.cpus| &&
    var c := s.cpus[a.cpu];
    match a
    case Start(_, _) => c.isr.NoIsr? && c.pc.Idle?
    case Main(_) =>
      c.isr.NoIsr? &&
      (match c.pc
       case Idle => false
       case Barrier => s.working >= |s.cpus|
       case WantPaging => s.paging.None?
       case WantIpcall => s.ipcall.None?
       case Waiting => s.count >= s.working - 1
       case _ => true)
    case Interrupt(_) => !c.isr.NoIsr? || c.pending > 0
    case Fill(_, q) => q in s.tables
    case Evict(_, q) => true
  }

  function Set(s: State, i: nat, c: Cpu): State
    requires i < |s.cpus|
  {
    s.(cpus := s.cpus[i := c])
  }

  // Where the code goes next: map_page and unmap_page, then inter_processor_call inside them or on its own.
  function NextPc(c: Cpu): Pc {
    match c.pc
    case Boot => Barrier
    case Barrier => Idle
    case Idle => Idle
    case WantPaging => Editing
    case Editing => SetAddr
    case SetAddr => LocalInvlpg
    case LocalInvlpg => WantIpcall
    case WantIpcall => SetFun
    case SetFun => ResetCount
    case ResetCount => Broadcasting
    case Broadcasting => Waiting
    case Waiting => ReleaseIpcall
    case ReleaseIpcall => if c.job.Update? then ReleasePaging else Idle
    case ReleasePaging => Idle
  }

  // The tables after the entry of the job's page is written.
  function Edit(tables: map<Page, Frame>, job: Job): map<Page, Frame> {
    if job.Call? then tables
    else if job.frame.Some? then tables[job.page := job.frame.value]
    else tables - {job.page}
  }

  // The next step of the code a processor runs outside interrupts, with the one step that writes each variable.
  function MainStep(s: State, i: nat): State
    requires i < |s.cpus|
  {
    var c := s.cpus[i];
    var others := if c.pc.ResetCount? then Forget(s.cpus)
                  else if c.pc.Broadcasting? && s.working > 1 then Notify(s.cpus, i)
                  else s.cpus;
    State(
      others[i := c.(pc := NextPc(c),
                     tlb := if c.pc.LocalInvlpg? then c.tlb - {s.addr} else c.tlb,
                     answered := !c.pc.ResetCount? && c.answered)],
      if c.pc.Editing? then Edit(s.tables, c.job) else s.tables,
      if c.pc.Boot? then s.working + 1 else s.working,
      if c.pc.WantPaging? then Some(i) else if c.pc.ReleasePaging? then None else s.paging,
      if c.pc.WantIpcall? then Some(i) else if c.pc.ReleaseIpcall? then None else s.ipcall,
      if c.pc.SetAddr? && c.job.Update? then c.job.page else s.addr,
      if c.pc.SetFun? then c.job.Function() else s.fun,
      if c.pc.ResetCount? then 0 else s.count,
      if c.pc.Broadcasting? then s.calls + [(i, s.fun)] else s.calls)
  }

  // A new round: nobody has answered.
  function Forget(cs: seq<Cpu>): seq<Cpu> { seq(|cs|, k requires 0 <= k < |cs| => cs[k].(answered := false)) }

  // broadcast_ipi: one more pending interrupt on every processor but the sender.
  function Notify(cs: seq<Cpu>, i: nat): seq<Cpu> {
    seq(|cs|, k requires 0 <= k < |cs| => if k == i then cs[k] else cs[k].(pending := cs[k].pending + 1))
  }

  // The next step of isr_inter_processor_call.
  function Serve(c: Cpu, fun: Fun, addr: Page): (r: Cpu)
    requires !c.isr.NoIsr? || c.pending > 0
    ensures r.pc == c.pc && r.job == c.job
  {
    match c.isr
    case NoIsr => c.(isr := Entered, pending := c.pending - 1)
    case Entered => c.(isr := Loaded(fun))
    case Loaded(f) => if f.InvalidateTlbs? then c.(isr := Aimed(addr)) else c.(isr := Ran, ran := c.ran + [f])
    case Aimed(q) => c.(isr := Ran, tlb := c.tlb - {q}, ran := c.ran + [InvalidateTlbs])
    case Ran => c.(isr := Tail, answered := true)
    case Tail => c.(isr := NoIsr)
  }

  function InterruptStep(s: State, i: nat): State
    requires Enabled(s, Interrupt(i))
  {
    var c := s.cpus[i];
    Set(s, i, Serve(c, s.fun, s.addr)).(count := if c.isr.Ran? then s.count + 1 else s.count)
  }

  function Step(s: State, a: Action): State
    requires Enabled(s, a)
  {
    var c := s.cpus[a.cpu];
    match a
    case Start(i, job) => Set(s, i, c.(job := job, pc := if job.Update? then WantPaging else WantIpcall))
    case Main(i) => MainStep(s, i)
    case Interrupt(i) => InterruptStep(s, i)
    case Fill(i, q) => Set(s, i, c.(tlb := c.tlb[q := s.tables[q]]))
    case Evict(i, q) => Set(s, i, c.(tlb := c.tlb - {q}))
  }

  ghost predicate Run(s: State, acts: seq<Action>)
    decreases |acts|
  {
    acts == [] || (Enabled(s, acts[0]) && Run(Step(s, acts[0]), acts[1..]))
  }

  ghost function After(s: State, acts: seq<Action>): State
    requires Run(s, acts)
    decreases |acts|
  {
    if acts == [] then s else After(Step(s, acts[0]), acts[1..])
  }

  // ----- the invariant -----

  predicate InPaging(c: Cpu) {
    c.job.Update? &&
    (c.pc.Editing? || c.pc.SetAddr? || c.pc.LocalInvlpg? || c.pc.WantIpcall? || InIpcall(c) || c.pc.ReleasePaging?)
  }

  predicate InIpcall(c: Cpu) {
    c.pc.SetFun? || c.pc.ResetCount? || c.pc.Broadcasting? || c.pc.Waiting? || c.pc.ReleaseIpcall?
  }

  // Program points that only map_page and unmap_page reach.
  predicate ForUpdates(pc: Pc) {
    pc.WantPaging? || pc.Editing? || pc.SetAddr? || pc.LocalInvlpg? || pc.ReleasePaging?
  }

  // Each lock is held by exactly the processor between its acquire and its release.
  ghost predicate LocksHeld(s: State) {
    && (forall i | 0 <= i < |s.cpus| :: InPaging(s.cpus[i]) <==> s.paging == Some(i))
    && (forall i | 0 <= i < |s.cpus| :: InIpcall(s.cpus[i]) <==> s.ipcall == Some(i))
    && (s.paging.Some? ==> s.paging.value < |s.cpus|)
    && (s.ipcall.Some? ==> s.ipcall.value < |s.cpus|)
    && (forall i | 0 <= i < |s.cpus| && ForUpdates(s.cpus[i].pc) :: s.cpus[i].job.Update?)
  }

  function Tally(cs: seq<Cpu>, p: Cpu -> bool): nat {
    if cs == [] then 0 else (if p(cs[0]) then 1 else 0) + Tally(cs[1..], p)
  }

  function Booted(c: Cpu): bool { !c.pc.Boot? }
  function Answered(c: Cpu): bool { c.answered }

  // The start-up barrier: whoever has left it knows that all processors work.
  ghost predicate BarrierKept(s: State) {
    && s.working == Tally(s.cpus, Booted)
    && (forall i | 0 <= i < |s.cpus| && !s.cpus[i].pc.Boot? && !s.cpus[i].pc.Barrier? :: s.working == |s.cpus|)
  }

  // No interrupt is due or being served, apart from the way out of the handler.
  predicate Quiet(c: Cpu) { c.pending == 0 && (c.isr.NoIsr? || c.isr.Tail?) }

  // Processor `c` has yet to run function `f`.
  predicate Owes(c: Cpu) { !c.answered && !c.isr.Ran? }

  // A called processor before it counts itself.
  predicate Serving(s: State, c: Cpu) {
    || (c.pending == 1 && (c.isr.NoIsr? || c.isr.Tail?))
    || (c.pending == 0 && (c.isr.Entered? || c.isr == Loaded(s.fun) || c.isr.Ran?
      || (c.isr == Aimed(s.addr) && s.fun.InvalidateTlbs?)))
  }

  // The functions of the rounds that processor `i` did not start itself.
  function Expected(calls: seq<(nat, Fun)>, i: nat): seq<Fun> {
    if calls == [] then []
    else Expected(calls[..|calls| - 1], i) + (if calls[|calls| - 1].0 == i then [] else [calls[|calls| - 1].1])
  }

  predicate CallOpen(s: State) {
    s.ipcall.Some? && s.ipcall.value < |s.cpus| && s.cpus[s.ipcall.value].pc.Waiting?
  }

  // Interrupts are due or served only in an open round, at most one per processor, and only for its function.
  ghost predicate ServiceKept(s: State) {
    forall i | 0 <= i < |s.cpus| :: ServiceAt(s, i)
  }

  predicate ServiceAt(s: State, i: nat)
    requires i < |s.cpus|
  {
    if CallOpen(s) && i != s.ipcall.value && !s.cpus[i].answered then Serving(s, s.cpus[i]) else Quiet(s.cpus[i])
  }

  // One call round at a time; `count` is the number of processors that have answered it.
  ghost predicate CountKept(s: State) {
    s.ipcall.Some? && s.ipcall.value < |s.cpus| ==>
      var c := s.cpus[s.ipcall.value];
      && (c.pc.ResetCount? || c.pc.Broadcasting? || c.pc.Waiting? ==> s.fun == c.job.Function())
      && (c.pc.Broadcasting? ==> s.count == 0 && forall i | 0 <= i < |s.cpus| :: !s.cpus[i].answered)
      && (c.pc.Waiting? ==> s.count == Tally(s.cpus, Answered) && !c.answered)
      && (c.pc.Waiting? ==> s.calls != [] && s.calls[|s.calls| - 1] == (s.ipcall.value, s.fun))
  }

  ghost predicate RoundKept(s: State) { ServiceKept(s) && CountKept(s) }

  // Every processor has run exactly the functions of the rounds of others, each once, in order.
  ghost predicate HistoryKept(s: State) { forall i | 0 <= i < |s.cpus| :: HistoryOf(s, i) }

  predicate HistoryOf(s: State, i: nat)
    requires i < |s.cpus|
  {
    Expected(s.calls, i) == s.cpus[i].ran + Due(s, i)
  }

  // What processor `i` still has to run in the open round.
  function Due(s: State, i: nat): seq<Fun>
    requires i < |s.cpus|
  {
    if CallOpen(s) && i != s.ipcall.value && Owes(s.cpus[i]) then [s.fun] else []
  }

  predicate Stale(s: State, c: Cpu, q: Page) {
    q in c.tlb && !(q in s.tables && s.tables[q] == c.tlb[q])
  }

  // The holder of the paging mutex is updating page `q` and processor `i` has not invalidated it yet.
  predicate Excused(s: State, i: nat, q: Page)
    requires i < |s.cpus|
  {
    s.paging.Some? && s.paging.value < |s.cpus| &&
    var h := s.cpus[s.paging.value];
    h.job.Update? && h.job.page == q &&
    match h.pc
    case SetAddr => true
    case LocalInvlpg => true
    case WantIpcall => i != s.paging.value
    case SetFun => i != s.paging.value
    case ResetCount => i != s.paging.value
    case Broadcasting => i != s.paging.value
    case Waiting => i != s.paging.value && Owes(s.cpus[i])
    case _ => false
  }

  /** A TLB entry that differs from the tables is for the page being updated, on a processor yet to invalidate. */
  ghost predicate TlbsCoherent(s: State) {
    forall i, q | 0 <= i < |s.cpus| && Stale(s, s.cpus[i], q) :: Excused(s, i, q)
  }

  // The address to invalidate stays put for the round.
  ghost predicate AddrKept(s: State) {
    s.paging.Some? && s.paging.value < |s.cpus| ==>
      var h := s.cpus[s.paging.value];
      h.job.Update? && (h.pc.LocalInvlpg? || h.pc.WantIpcall? || InIpcall(h)) ==> s.addr == h.job.page
  }

  ghost predicate Inv(s: State) {
    LocksHeld(s) && BarrierKept(s) && RoundKept(s) && HistoryKept(s) && TlbsCoherent(s) && AddrKept(s)
  }

  // ----- counting processors -----

  lemma {:induction false} TallySet(cs: seq<Cpu>, i: nat, c: Cpu, p: Cpu -> bool)
    requires i < |cs|
    ensures Tally(cs[i := c], p) == Tally(cs, p) - (if p(cs[i]) then 1 else 0) + (if p(c) then 1 else 0)
  {
    if i == 0 {
      assert cs[i := c][1..] == cs[1..];
    } else {
      assert cs[i := c][1..] == cs[1..][i - 1 := c];
      TallySet(cs[1..], i - 1, c, p);
    }
  }

  lemma {:induction false} TallySame(cs: seq<Cpu>, cs': seq<Cpu>, p: Cpu -> bool)
    requires |cs| == |cs'| && forall k | 0 <= k < |cs| :: p(cs[k]) == p(cs'[k])
    ensures Tally(cs, p) == Tally(cs', p)
  {
    if cs != [] {
      TallySame(cs[1..], cs'[1..], p);
    }
  }

  lemma {:induction false} TallyBound(cs: seq<Cpu>, p: Cpu -> bool)
    ensures Tally(cs, p) <= |cs|
    ensures Tally(cs, p) == |cs| <==> forall k | 0 <= k < |cs| :: p(cs[k])
    ensures Tally(cs, p) == 0 <==> forall k | 0 <= k < |cs| :: !p(cs[k])
  {
    if cs != [] {
      TallyBound(cs[1..], p);
      assert forall k | 1 <= k < |cs| :: cs[k] == cs[1..][k - 1];
      assert forall k | 0 <= k < |cs| - 1 :: cs[1..][k] == cs[k + 1];
    }
  }

  /** All processors but one answered: the one that has not is the caller. */
  lemma AllOthersAnswered(cs: seq<Cpu>, i: nat)
    requires i < |cs| && !cs[i].answered && Tally(cs, Answered) >= |cs| - 1
    ensures forall k | 0 <= k < |cs| && k != i :: cs[k].answered
  {
    var cs' := cs[i := cs[i].(answered := true)];
    TallySet(cs, i, cs[i].(answered := true), Answered);
    TallyBound(cs', Answered);
    forall k | 0 <= k < |cs| && k != i ensures cs[k].answered {
      assert Answered(cs'[k]);
    }
  }

  // ----- every step keeps the invariant -----

  // Program points move one processor at a time.
  lemma OthersStay(s: State, a: Action)
    requires Enabled(s, a)
    ensures var s' := Step(s, a);
            && |s'.cpus| == |s.cpus|
            && (forall k | 0 <= k < |s.cpus| && k != a.cpu ::
                  s'.cpus[k].pc == s.cpus[k].pc && s'.cpus[k].job == s.cpus[k].job && s'.cpus[k].isr == s.cpus[k].isr
                  && s'.cpus[k].tlb == s.cpus[k].tlb && s'.cpus[k].ran == s.cpus[k].ran)
    ensures !a.Main? && !a.Start? ==> Step(s, a).cpus[a.cpu].pc == s.cpus[a.cpu].pc
    ensures !a.Start? ==> Step(s, a).cpus[a.cpu].job == s.cpus[a.cpu].job
    ensures !a.Main? ==> Step(s, a).paging == s.paging && Step(s, a).ipcall == s.ipcall
  {
    hide Serve;
  }

  lemma LocksStep(s: State, a: Action)
    requires LocksHeld(s) && Enabled(s, a)
    ensures LocksHeld(Step(s, a))
  {
    if a.Main? { LocksMain(s, a.cpu); } else { LocksRest(s, a); }
  }

  lemma LocksRest(s: State, a: Action)
    requires LocksHeld(s) && Enabled(s, a) && !a.Main?
    ensures LocksHeld(Step(s, a))
  {
    OthersStay(s, a);
    forall k | 0 <= k < |s.cpus| ensures SameHolder(s.cpus[k], Step(s, a).cpus[k]) {
      HolderStays(s, a, k);
    }
    hide Step, Enabled, InPaging, InIpcall, ForUpdates;
  }

  // A processor in the critical sections of both locks as before, and still in a call that may be there.
  predicate SameHolder(c: Cpu, c': Cpu) {
    && (InPaging(c') <==> InPaging(c)) && (InIpcall(c') <==> InIpcall(c))
    && ((ForUpdates(c.pc) ==> c.job.Update?) ==> (ForUpdates(c'.pc) ==> c'.job.Update?))
  }

  lemma HolderStays(s: State, a: Action, k: nat)
    requires Enabled(s, a) && !a.Main? && k < |s.cpus|
    ensures |Step(s, a).cpus| == |s.cpus| && SameHolder(s.cpus[k], Step(s, a).cpus[k])
  {
    OthersStay(s, a);
    StartedOutside(s, a);
    hide Step, Enabled;
  }

  // A call starts outside both locks.
  lemma StartedOutside(s: State, a: Action)
    requires Enabled(s, a) && !a.Main?
    ensures var c := Step(s, a).cpus[a.cpu];
            if a.Start?
            then s.cpus[a.cpu].pc.Idle? && c.job == a.job && c.pc == if c.job.Update? then WantPaging else WantIpcall
            else c.pc == s.cpus[a.cpu].pc && c.job == s.cpus[a.cpu].job
  {
    hide Serve;
  }

  // What a step of the code does to the locks.
  lemma MainLocks(s: State, i: nat)
    requires Enabled(s, Main(i))
    ensures var s', c := Step(s, Main(i)), s.cpus[i];
            && |s'.cpus| == |s.cpus| && s'.cpus[i].pc == NextPc(c) && s'.cpus[i].job == c.job
            && s'.paging == (if c.pc.WantPaging? then Some(i) else if c.pc.ReleasePaging? then None else s.paging)
            && s'.ipcall == (if c.pc.WantIpcall? then Some(i) else if c.pc.ReleaseIpcall? then None else s.ipcall)
            && (c.pc.WantPaging? ==> s.paging.None?) && (c.pc.WantIpcall? ==> s.ipcall.None?)
  {}

  lemma LocksMain(s: State, i: nat)
    requires LocksHeld(s) && Enabled(s, Main(i))
    ensures LocksHeld(Step(s, Main(i)))
  {
    OthersStay(s, Main(i));
    MainLocks(s, i);
    hide Step, Enabled;
  }

  lemma BarrierStep(s: State, a: Action)
    requires BarrierKept(s) && Enabled(s, a)
    ensures BarrierKept(Step(s, a))
  {
    if a.Main? {
      BarrierMain(s, a.cpu);
    } else {
      OthersStay(s, a);
      StartedOutside(s, a);
      TallySet(s.cpus, a.cpu, Step(s, a).cpus[a.cpu], Booted);
      hide InterruptStep, Tally;
    }
  }

  lemma BarrierMain(s: State, i: nat)
    requires BarrierKept(s) && Enabled(s, Main(i))
    ensures BarrierKept(Step(s, Main(i)))
  {
    var s' := Step(s, Main(i));
    MainLocks(s, i);
    OthersStay(s, Main(i));
    TallyBound(s.cpus, Booted);
    TallyBound(s'.cpus, Booted);
    TallySet(s.cpus, i, s'.cpus[i], Booted);
    TallySame(s.cpus[i := s'.cpus[i]], s'.cpus, Booted);
    assert s'.working == if s.cpus[i].pc.Boot? then s.working + 1 else s.working;
    hide Step, Tally;
  }

  lemma ServiceRest(s: State, a: Action)
    requires LocksHeld(s) && ServiceKept(s) && Enabled(s, a) && !a.Main? && !a.Interrupt?
    ensures ServiceKept(Step(s, a))
  {
    forall k | 0 <= k < |s.cpus| ensures ServiceAt(Step(s, a), k) {
      assert ServiceAt(s, k);
    }
  }

  lemma ServiceInterrupt(s: State, i: nat)
    requires LocksHeld(s) && RoundKept(s) && Enabled(s, Interrupt(i))
    ensures ServiceKept(Step(s, Interrupt(i)))
  {
    InterruptStays(s, i);
    forall k | 0 <= k < |s.cpus| ensures ServiceAt(Step(s, Interrupt(i)), k) {
      assert ServiceAt(s, k);
    }
  }

  lemma ServiceMain(s: State, i: nat)
    requires LocksHeld(s) && BarrierKept(s) && RoundKept(s) && Enabled(s, Main(i))
    ensures ServiceKept(Step(s, Main(i)))
  {
    var s' := Step(s, Main(i));
    OthersStay(s, Main(i));
    if s.cpus[i].pc.Waiting? {
      AllOthersAnswered(s.cpus, i);
    }
    forall k | 0 <= k < |s'.cpus| ensures ServiceAt(s', k) {
      if s.cpus[i].pc.Broadcasting? { ServiceBroadcast(s, i, k); } else { ServiceMainAt(s, i, k); }
    }
  }

  lemma ServiceMainAt(s: State, i: nat, k: nat)
    requires LocksHeld(s) && RoundKept(s) && Enabled(s, Main(i)) && k < |s.cpus| && !s.cpus[i].pc.Broadcasting?
    requires s.cpus[i].pc.Waiting? ==> k == i || s.cpus[k].answered
    ensures k < |Step(s, Main(i)).cpus| && ServiceAt(Step(s, Main(i)), k)
  {
    assert ServiceAt(s, k);
  }

  lemma ServiceBroadcast(s: State, i: nat, k: nat)
    requires LocksHeld(s) && BarrierKept(s) && RoundKept(s) && Enabled(s, Main(i)) && k < |s.cpus|
        && s.cpus[i].pc.Broadcasting?
    ensures k < |Step(s, Main(i)).cpus| && ServiceAt(Step(s, Main(i)), k)
  {
    assert ServiceAt(s, k);
  }

  lemma CountRest(s: State, a: Action)
    requires LocksHeld(s) && RoundKept(s) && Enabled(s, a) && !a.Main?
    ensures CountKept(Step(s, a))
  {
    OthersStay(s, a);
    TallySet(s.cpus, a.cpu, Step(s, a).cpus[a.cpu], Answered);
    if a.Interrupt? {
      CountInterrupt(s, a.cpu);
    }
  }

  lemma CountInterrupt(s: State, i: nat)
    requires LocksHeld(s) && RoundKept(s) && Enabled(s, Interrupt(i))
    ensures CountKept(Step(s, Interrupt(i)))
  {
    assert ServiceAt(s, i);
    TallySet(s.cpus, i, Step(s, Interrupt(i)).cpus[i], Answered);
    hide Tally;
    InterruptStays(s, i);
  }

  lemma CountMain(s: State, i: nat)
    requires LocksHeld(s) && CountKept(s) && Enabled(s, Main(i))
    ensures CountKept(Step(s, Main(i)))
  {
    var s' := Step(s, Main(i));
    OthersStay(s, Main(i));
    if s.cpus[i].pc.Broadcasting? {
      TallyBound(s'.cpus, Answered);
    } else if !s.cpus[i].pc.ResetCount? {
      TallySet(s.cpus, i, s'.cpus[i], Answered);
    }
  }

  // Only a broadcast changes what is expected, and only the step of a processor what it has run.
  lemma HistoryRest(s: State, a: Action)
    requires LocksHeld(s) && RoundKept(s) && HistoryKept(s) && Enabled(s, a) && !a.Main? && !a.Interrupt?
    ensures HistoryKept(Step(s, a))
  {
    hide Expected;
    OthersStay(s, a);
    forall k | 0 <= k < |s.cpus| ensures HistoryOf(Step(s, a), k) {
      assert HistoryOf(s, k);
    }
  }

  // An interrupt step changes one processor and at most the count.
  lemma InterruptStays(s: State, i: nat)
    requires Enabled(s, Interrupt(i))
    ensures var s' := Step(s, Interrupt(i));
            && s'.cpus == s.cpus[i := Serve(s.cpus[i], s.fun, s.addr)]
            && s'.calls == s.calls && s'.fun == s.fun && s'.addr == s.addr && s'.tables == s.tables
            && s'.ipcall == s.ipcall && s'.paging == s.paging && CallOpen(s') == CallOpen(s)
  {
    hide Serve;
  }

  // Running the function takes it off what is due.
  lemma ServedHistory(c: Cpu, fun: Fun, addr: Page)
    requires !c.isr.NoIsr? || c.pending > 0
    ensures var r := Serve(c, fun, addr);
            && (c.isr.Loaded? && !c.isr.fun.InvalidateTlbs? ==> r.ran == c.ran + [c.isr.fun] && !Owes(r))
            && (c.isr.Aimed? ==> r.ran == c.ran + [InvalidateTlbs] && !Owes(r))
            && (!c.isr.Aimed? && !(c.isr.Loaded? && !c.isr.fun.InvalidateTlbs?) ==>
                  r.ran == c.ran && Owes(r) == Owes(c))
  {}

  lemma HistoryInterrupt(s: State, i: nat)
    requires LocksHeld(s) && RoundKept(s) && HistoryKept(s) && Enabled(s, Interrupt(i))
    ensures HistoryKept(Step(s, Interrupt(i)))
  {
    var s' := Step(s, Interrupt(i));
    ServiceOf(s, i);
    hide Step, Serve, Expected, CallOpen, LocksHeld, RoundKept, Enabled;
    InterruptStays(s, i);
    ServedHistory(s.cpus[i], s.fun, s.addr);
    forall k | 0 <= k < |s.cpus| ensures HistoryOf(s', k) {
      assert HistoryOf(s, k);
    }
  }

  // What is known of a processor with an interrupt step to take.
  lemma ServiceOf(s: State, i: nat)
    requires RoundKept(s) && Enabled(s, Interrupt(i))
    ensures var c := s.cpus[i];
            c.isr.Loaded? || c.isr.Aimed? ==>
              && CallOpen(s) && i != s.ipcall.value && Owes(c)
              && (c.isr.Loaded? ==> c.isr.fun == s.fun)
                && (c.isr.Aimed? ==> s.fun == InvalidateTlbs && c.isr.page == s.addr)
  {
    assert ServiceAt(s, i);
  }

  lemma HistoryMain(s: State, i: nat)
    requires LocksHeld(s) && BarrierKept(s) && RoundKept(s) && HistoryKept(s) && Enabled(s, Main(i))
    ensures HistoryKept(Step(s, Main(i)))
  {
    var s' := Step(s, Main(i));
    OthersStay(s, Main(i));
    if s.cpus[i].pc.Broadcasting? {
      HistoryBroadcast(s, i);
    } else {
      if s.cpus[i].pc.Waiting? {
        AllOthersAnswered(s.cpus, i);
      }
      forall k | 0 <= k < |s.cpus| ensures HistoryOf(s', k) {
        HistoryMainOf(s, i, k);
      }
    }
  }

  // No other step of the code changes what a processor has run, or what is due of it.
  lemma HistoryMainOf(s: State, i: nat, k: nat)
    requires LocksHeld(s) && RoundKept(s) && HistoryKept(s) && Enabled(s, Main(i)) && !s.cpus[i].pc.Broadcasting?
    requires k < |s.cpus|
    requires s.cpus[i].pc.Waiting? ==> k == i || s.cpus[k].answered
    ensures k < |Step(s, Main(i)).cpus| && HistoryOf(Step(s, Main(i)), k)
  {
    hide Expected;
    assert HistoryOf(s, k);
  }

  lemma HistoryBroadcast(s: State, i: nat)
    requires LocksHeld(s) && BarrierKept(s) && RoundKept(s) && HistoryKept(s) && Enabled(s, Main(i))
        && s.cpus[i].pc.Broadcasting?
    ensures HistoryKept(Step(s, Main(i)))
  {
    var s' := Step(s, Main(i));
    assert s'.calls[..|s'.calls| - 1] == s.calls;
    forall k | 0 <= k < |s'.cpus| ensures HistoryOf(s', k) {
      assert HistoryOf(s, k) && ServiceAt(s, k);
      assert Expected(s'.calls, k) == Expected(s.calls, k) + if k == i then [] else [s.fun];
    }
  }

  lemma AddrStep(s: State, a: Action)
    requires LocksHeld(s) && AddrKept(s) && Enabled(s, a)
    ensures AddrKept(Step(s, a))
  {
    OthersStay(s, a);
  }

  lemma CoherentRest(s: State, a: Action)
    requires LocksHeld(s) && TlbsCoherent(s) && Enabled(s, a) && !a.Main? && !a.Interrupt?
    ensures TlbsCoherent(Step(s, a))
  {
    var s' := Step(s, a);
    OthersStay(s, a);
    forall k, q | 0 <= k < |s'.cpus| && Stale(s', s'.cpus[k], q) ensures Excused(s', k, q) {
      assert Stale(s, s.cpus[k], q);
    }
  }

  lemma CoherentInterrupt(s: State, i: nat)
    requires LocksHeld(s) && RoundKept(s) && TlbsCoherent(s) && AddrKept(s) && Enabled(s, Interrupt(i))
    ensures TlbsCoherent(Step(s, Interrupt(i)))
  {
    var s' := Step(s, Interrupt(i));
    assert ServiceAt(s, i);
    forall k, q | 0 <= k < |s'.cpus| && Stale(s', s'.cpus[k], q) ensures Excused(s', k, q) {
      assert Stale(s, s.cpus[k], q);
    }
  }

  lemma CoherentMain(s: State, i: nat)
    requires LocksHeld(s) && BarrierKept(s) && RoundKept(s) && TlbsCoherent(s) && AddrKept(s) && Enabled(s, Main(i))
    ensures TlbsCoherent(Step(s, Main(i)))
  {
    var s' := Step(s, Main(i));
    OthersStay(s, Main(i));
    if s.cpus[i].pc.Waiting? {
      AllOthersAnswered(s.cpus, i);
    }
    forall k, q | 0 <= k < |s'.cpus| && Stale(s', s'.cpus[k], q) ensures Excused(s', k, q) {
      if s.paging == Some(i) || s.cpus[i].pc.WantPaging? {
        CoherentMainHolder(s, i, k, q);
      } else {
        assert Stale(s, s.cpus[k], q);
      }
    }
  }

  // The step of a processor that holds the paging mutex, or just takes it.
  lemma CoherentMainHolder(s: State, i: nat, k: nat, q: Page)
    requires LocksHeld(s) && RoundKept(s) && TlbsCoherent(s) && AddrKept(s) && Enabled(s, Main(i))
    requires s.paging == Some(i) || s.cpus[i].pc.WantPaging?
    requires s.cpus[i].pc.Waiting? ==> forall j | 0 <= j < |s.cpus| && j != i :: s.cpus[j].answered
    requires k < |s.cpus| && Stale(Step(s, Main(i)), Step(s, Main(i)).cpus[k], q)
    ensures Excused(Step(s, Main(i)), k, q)
  {
    OthersStay(s, Main(i));
    assert ServiceAt(s, k);
    if !(s.cpus[i].pc.Editing? && q == s.cpus[i].job.page) {
      assert Stale(s, s.cpus[k], q);
    }
  }

  lemma StepKeepsInv(s: State, a: Action)
    requires Inv(s) && Enabled(s, a)
    ensures Inv(Step(s, a))
  {
    hide Step, LocksHeld, BarrierKept, ServiceKept, CountKept, HistoryKept, TlbsCoherent, AddrKept;
    LocksStep(s, a);
    BarrierStep(s, a);
    AddrStep(s, a);
    match a
    case Main(i) =>
      ServiceMain(s, i); CountMain(s, i); HistoryMain(s, i); CoherentMain(s, i);
    case Interrupt(i) =>
      ServiceInterrupt(s, i); CountRest(s, a); HistoryInterrupt(s, i); CoherentInterrupt(s, i);
    case _ =>
      ServiceRest(s, a); CountRest(s, a); HistoryRest(s, a); CoherentRest(s, a);
  }

  lemma InitKeepsInv(n: nat, tables: map<Page, Frame>)
    ensures Inv(Init(n, tables))
  {
    TallyBound(Init(n, tables).cpus, Booted);
  }

  lemma {:induction false} RunKeepsInv(s: State, acts: seq<Action>)
    requires Inv(s) && Run(s, acts)
    ensures Inv(After(s, acts))
    decreases |acts|
  {
    if acts != [] {
      StepKeepsInv(s, acts[0]);
      RunKeepsInv(Step(s, acts[0]), acts[1..]);
    }
  }

  // ----- the main results, for every run of any number of processors -----

  /** In every reachable state a stale TLB entry is for the page being updated, on a processor still to invalidate. */
  lemma TlbCoherence(n: nat, tables: map<Page, Frame>, acts: seq<Action>)
    requires Run(Init(n, tables), acts)
    ensures var s := After(Init(n, tables), acts);
            |s.cpus| == n && forall i, q | 0 <= i < n && Stale(s, s.cpus[i], q) :: Excused(s, i, q)
  {
    InitKeepsInv(n, tables);
    RunKeepsInv(Init(n, tables), acts);
    RunKeepsSize(Init(n, tables), acts);
  }

  lemma {:induction false} RunKeepsSize(s: State, acts: seq<Action>)
    requires Run(s, acts)
    ensures |After(s, acts).cpus| == |s.cpus|
    decreases |acts|
  {
    if acts != [] {
      OthersStay(s, acts[0]);
      RunKeepsSize(Step(s, acts[0]), acts[1..]);
    }
  }

  /** When map_page or unmap_page is about to return, no processor holds a stale translation of any page. */
  lemma NoStaleEntryOnReturn(n: nat, tables: map<Page, Frame>, acts: seq<Action>, i: nat, q: Page)
    requires Run(Init(n, tables), acts)
    requires var s := After(Init(n, tables), acts);
             (exists h | 0 <= h < |s.cpus| :: s.cpus[h].pc.ReleasePaging?) || s.paging.None?
    requires i < |After(Init(n, tables), acts).cpus|
    ensures var s := After(Init(n, tables), acts); !Stale(s, s.cpus[i], q)
  {
    InitKeepsInv(n, tables);
    RunKeepsInv(Init(n, tables), acts);
  }

  /** When inter_processor_call(f) may return, every other processor has run f exactly once since the broadcast. */
  lemma CallReturnsAfterAllRan(n: nat, tables: map<Page, Frame>, acts: seq<Action>, i: nat, j: nat)
    requires Run(Init(n, tables), acts)
    requires var s := After(Init(n, tables), acts);
             i < |s.cpus| && j < |s.cpus| && i != j && s.cpus[i].pc.Waiting? && Enabled(s, Main(i))
    ensures var s := After(Init(n, tables), acts);
            && s.calls != [] && s.calls[|s.calls| - 1] == (i, s.cpus[i].job.Function())
            && s.cpus[j].ran == Expected(s.calls[..|s.calls| - 1], j) + [s.cpus[i].job.Function()]
            && s.cpus[j].pending == 0
  {
    InitKeepsInv(n, tables);
    RunKeepsInv(Init(n, tables), acts);
    AllOthersAnswered(After(Init(n, tables), acts).cpus, i);
    assert HistoryOf(After(Init(n, tables), acts), j) && ServiceAt(After(Init(n, tables), acts), j);
  }

  /** At the broadcast every processor has run all earlier functions of others, and nothing is due. */
  lemma CallStartsQuiet(n: nat, tables: map<Page, Frame>, acts: seq<Action>, i: nat, j: nat)
    requires Run(Init(n, tables), acts)
    requires var s := After(Init(n, tables), acts);
             i < |s.cpus| && j < |s.cpus| && s.cpus[i].pc.Broadcasting?
    ensures var s := After(Init(n, tables), acts);
            s.cpus[j].ran == Expected(s.calls, j) && s.cpus[j].pending == 0 && s.count == 0 && s.working == |s.cpus|
  {
    InitKeepsInv(n, tables);
    RunKeepsInv(Init(n, tables), acts);
    assert HistoryOf(After(Init(n, tables), acts), j) && ServiceAt(After(Init(n, tables), acts), j);
  }

  /** At most one interrupt is pending per processor, and the handler only ever holds the function of the open round. */
  lemma HandlersServeTheirRound(n: nat, tables: map<Page, Frame>, acts: seq<Action>, j: nat)
    requires Run(Init(n, tables), acts) && j < |After(Init(n, tables), acts).cpus|
    ensures var s := After(Init(n, tables), acts);
            && s.cpus[j].pending <= 1
            && (s.cpus[j].isr.Loaded? ==> CallOpen(s) && s.cpus[j].isr.fun == s.cpus[s.ipcall.value].job.Function())
            && (s.cpus[j].isr.Aimed? ==> CallOpen(s) && s.cpus[s.ipcall.value].job.Update?
                                         && s.cpus[j].isr.page == s.cpus[s.ipcall.value].job.page)
            && (CallOpen(s) ==> s.count == Tally(s.cpus, Answered))
  {
    InitKeepsInv(n, tables);
    RunKeepsInv(Init(n, tables), acts);
    assert ServiceAt(After(Init(n, tables), acts), j);
  }

  /** Neither mutex ever has two holders. */
  lemma OneHolder(n: nat, tables: map<Page, Frame>, acts: seq<Action>, i: nat, j: nat)
    requires Run(Init(n, tables), acts)
    requires var s := After(Init(n, tables), acts); i < |s.cpus| && j < |s.cpus|
    ensures var s := After(Init(n, tables), acts);
            (InPaging(s.cpus[i]) && InPaging(s.cpus[j]) ==> i == j)
              && (InIpcall(s.cpus[i]) && InIpcall(s.cpus[j]) ==> i == j)
  {
    InitKeepsInv(n, tables);
    RunKeepsInv(Init(n, tables), acts);
  }

  // ----- what an update writes -----

  // Page `q` translates alike in both.
  predicate SameAt(m: map<Page, Frame>, m': map<Page, Frame>, q: Page) {
    (q in m <==> q in m') && (q in m ==> m[q] == m'[q])
  }

  // Page `q` is the job's, and translates as the job asks for.
  predicate Written(m: map<Page, Frame>, job: Job, q: Page) {
    job.Update? && job.page == q && if job.frame.Some? then q in m && m[q] == job.frame.value else q !in m
  }

  // Tables `m'` are `m` with the update of the job.
  ghost predicate Updated(m: map<Page, Frame>, m': map<Page, Frame>, job: Job) {
    job.Update? && Written(m', job, job.page) && forall q | q != job.page :: SameAt(m, m', q)
  }

  // In every state of the run processor `h` holds the paging mutex.
  ghost predicate Holding(s: State, acts: seq<Action>, h: nat)
    requires Run(s, acts)
    decreases |acts|
  {
    s.paging == Some(h) && (acts != [] ==> Holding(Step(s, acts[0]), acts[1..], h))
  }

  // Tables `m` before the update of the holder `h`: it has yet to write, or has written all of it.
  ghost predicate SinceTaken(m: map<Page, Frame>, s: State, h: nat) {
    && h < |s.cpus| && s.cpus[h].job.Update?
    && if s.cpus[h].pc.Editing? then s.tables == m else Updated(m, s.tables, s.cpus[h].job)
  }

  // Only the processor that holds the mutex writes to the tables.
  lemma OnlyHolderWrites(s: State, a: Action)
    requires LocksHeld(s) && Enabled(s, a) && !(a.Main? && s.paging == Some(a.cpu))
    ensures Step(s, a).tables == s.tables
  {
    hide Serve;
  }

  lemma SinceTakenStep(m: map<Page, Frame>, s: State, a: Action, h: nat)
    requires LocksHeld(s) && Enabled(s, a) && s.paging == Some(h) && Step(s, a).paging == Some(h) && SinceTaken(m, s, h)
    ensures SinceTaken(m, Step(s, a), h)
  {
    OthersStay(s, a);
    if a == Main(h) {
      hide Forget, Notify;
    } else {
      OnlyHolderWrites(s, a);
      if !a.Main? { StartedOutside(s, a); }
      hide Step, Enabled;
    }
  }

  lemma {:induction false} SinceTakenRun(m: map<Page, Frame>, s: State, acts: seq<Action>, h: nat)
    requires Inv(s) && Run(s, acts) && Holding(s, acts, h) && SinceTaken(m, s, h)
    ensures SinceTaken(m, After(s, acts), h) && Inv(After(s, acts)) && After(s, acts).paging == Some(h)
    decreases |acts|
  {
    if acts != [] {
      StepKeepsInv(s, acts[0]);
      SinceTakenStep(m, s, acts[0], h);
      SinceTakenRun(m, Step(s, acts[0]), acts[1..], h);
    }
  }

  /**
   From the moment a processor takes the paging mutex until it gives it back: once its entry is written, its page
   translates as its call asks for, and every other page as it did when the mutex was taken.
  */
  lemma UpdateTakesEffect(n: nat, tables: map<Page, Frame>, before: seq<Action>, h: nat, acts: seq<Action>)
    requires Run(Init(n, tables), before)
    requires var s := After(Init(n, tables), before);
             Enabled(s, Main(h)) && s.cpus[h].pc.WantPaging?
             && Run(Step(s, Main(h)), acts) && Holding(Step(s, Main(h)), acts, h)
    ensures var s := After(Init(n, tables), before);
            var t := After(Step(s, Main(h)), acts);
            && h < |t.cpus| && t.cpus[h].job.Update?
            && (t.cpus[h].pc.Editing? ==> t.tables == s.tables)
            && (!t.cpus[h].pc.Editing? ==> Updated(s.tables, t.tables, t.cpus[h].job))
  {
    var s := After(Init(n, tables), before);
    InitKeepsInv(n, tables);
    RunKeepsInv(Init(n, tables), before);
    StepKeepsInv(s, Main(h));
    OthersStay(s, Main(h));
    MainLocks(s, h);
    assert SinceTaken(s.tables, Step(s, Main(h)), h);
    SinceTakenRun(s.tables, Step(s, Main(h)), acts, h);
  }

  // The last job that wrote the entry of page `q` in a run.
  ghost function LastWrite(s: State, acts: seq<Action>, q: Page): Option<Job>
    requires Run(s, acts)
    decreases |acts|
  {
    if acts == [] then None else
    var a := acts[0];
    var later := LastWrite(Step(s, a), acts[1..], q);
    if later.Some? then later
    else if a.Main? && s.cpus[a.cpu].pc.Editing? && s.cpus[a.cpu].job.Update? && s.cpus[a.cpu].job.page == q
    then Some(s.cpus[a.cpu].job)
    else None
  }

  /** In every run every page translates as the last call that wrote its entry asked for, or else as at the start. */
  lemma {:induction false} TablesAreLastWrites(s: State, acts: seq<Action>, q: Page)
    requires LocksHeld(s) && Run(s, acts)
    ensures var w := LastWrite(s, acts, q);
            && (w.None? ==> SameAt(s.tables, After(s, acts).tables, q))
            && (w.Some? ==> Written(After(s, acts).tables, w.value, q))
    decreases |acts|
  {
    if acts != [] {
      LocksStep(s, acts[0]);
      StepWrites(s, acts[0], q);
      hide Step, Enabled, LocksHeld;
      TablesAreLastWrites(Step(s, acts[0]), acts[1..], q);
    }
  }

  // What one step does to the entry of page `q`.
  lemma StepWrites(s: State, a: Action, q: Page)
    requires LocksHeld(s) && Enabled(s, a)
    ensures var t, c := Step(s, a).tables, s.cpus[a.cpu];
            if a.Main? && c.pc.Editing? && c.job.Update? && c.job.page == q
            then Written(t, c.job, q) else SameAt(s.tables, t, q)
  {
    hide Serve, Forget, Notify;
  }

  // An entry of processor `i` for page `q` is dropped by its own invalidation, in the code or in the handler.
  predicate Invalidates(s: State, a: Action, i: nat, q: Page)
    requires i < |s.cpus|
  {
    || (a == Main(i) && s.cpus[i].pc.LocalInvlpg? && q == s.addr)
    || (a == Interrupt(i) && s.cpus[i].isr == Aimed(q))
  }

  /** A TLB entry comes from the tables of its time, and stays until it is evicted or invalidated. */
  lemma EntriesStay(s: State, a: Action, i: nat, q: Page)
    requires Enabled(s, a) && i < |s.cpus|
    ensures i < |Step(s, a).cpus|
    ensures a == Fill(i, q) ==> SameAt(s.tables, Step(s, a).cpus[i].tlb, q)
    ensures a == Evict(i, q) || Invalidates(s, a, i, q) ==> q !in Step(s, a).cpus[i].tlb
    ensures a != Fill(i, q) && a != Evict(i, q) && !Invalidates(s, a, i, q) ==>
        SameAt(s.cpus[i].tlb, Step(s, a).cpus[i].tlb, q)
  {
    OthersStay(s, a);
    hide Forget, Notify;
  }

  // ----- every round completes -----

  // Interrupt steps a processor still has before it.
  function Work(c: Cpu): nat {
    6 * c.pending +
    match c.isr
    case NoIsr => 0
    case Tail => 1
    case Ran => 2
    case Aimed(_) => 3
    case Loaded(_) => 4
    case Entered => 5
  }

  function TotalWork(cs: seq<Cpu>): nat {
    if cs == [] then 0 else Work(cs[0]) + TotalWork(cs[1..])
  }

  lemma {:induction false} WorkSet(cs: seq<Cpu>, i: nat, c: Cpu)
    requires i < |cs|
    ensures TotalWork(cs[i := c]) == TotalWork(cs) - Work(cs[i]) + Work(c)
    ensures TotalWork(cs) >= Work(cs[i])
  {
    if i == 0 {
      assert cs[i := c][1..] == cs[1..];
    } else {
      assert cs[i := c][1..] == cs[1..][i - 1 := c];
      WorkSet(cs[1..], i - 1, c);
    }
  }

  lemma {:induction false} WorkSame(cs: seq<Cpu>, cs': seq<Cpu>)
    requires |cs| == |cs'| && forall k | 0 <= k < |cs| :: Work(cs[k]) == Work(cs'[k])
    ensures TotalWork(cs) == TotalWork(cs')
  {
    if cs != [] {
      WorkSame(cs[1..], cs'[1..]);
    }
  }

  /** Interrupt steps use up the work of a round, and no step but a broadcast adds any. */
  lemma StepsUseWork(s: State, a: Action)
    requires Enabled(s, a)
    ensures a.Interrupt? ==> TotalWork(Step(s, a).cpus) < TotalWork(s.cpus)
    ensures !a.Interrupt? && !(a.Main? && s.cpus[a.cpu].pc.Broadcasting?) ==>
        TotalWork(Step(s, a).cpus) == TotalWork(s.cpus)
  {
    hide Serve, TotalWork, MainStep;
    if a.Main? && s.cpus[a.cpu].pc.Broadcasting? {
    } else if a.Main? {
      MainUsesNoWork(s, a.cpu);
    } else if a.Interrupt? {
      InterruptStays(s, a.cpu);
      ServeUsesWork(s.cpus[a.cpu], s.fun, s.addr);
      WorkSet(s.cpus, a.cpu, Serve(s.cpus[a.cpu], s.fun, s.addr));
    } else {
      WorkSet(s.cpus, a.cpu, Step(s, a).cpus[a.cpu]);
    }
  }

  lemma ServeUsesWork(c: Cpu, fun: Fun, addr: Page)
    requires !c.isr.NoIsr? || c.pending > 0
    ensures Work(Serve(c, fun, addr)) < Work(c)
  {}

  lemma MainUsesNoWork(s: State, i: nat)
    requires Enabled(s, Main(i)) && !s.cpus[i].pc.Broadcasting?
    ensures TotalWork(Step(s, Main(i)).cpus) == TotalWork(s.cpus)
  {
    hide TotalWork;
    WorkSame(s.cpus, Step(s, Main(i)).cpus);
  }

  /** A caller that has to wait leaves some processor with an interrupt to serve. */
  lemma WaitingHasWork(s: State, i: nat) returns (j: nat)
    requires Inv(s) && i < |s.cpus| && s.cpus[i].pc.Waiting? && s.count < s.working - 1
    ensures j < |s.cpus| && Enabled(s, Interrupt(j))
  {
    if forall k | 0 <= k < |s.cpus| && k != i :: s.cpus[k].answered {
      var cs := s.cpus[i := s.cpus[i].(answered := true)];
      TallySet(s.cpus, i, s.cpus[i].(answered := true), Answered);
      TallyBound(cs, Answered);
      assert false;
    } else {
      j :| 0 <= j < |s.cpus| && j != i && !s.cpus[j].answered;
      assert ServiceAt(s, j);
    }
  }

  /**
   From every reachable state with an open round, serving interrupts alone lets the caller go on within the work
   left.
  */
  lemma RoundCompletes(s: State, i: nat) returns (acts: seq<Action>)
    requires Inv(s) && i < |s.cpus| && s.cpus[i].pc.Waiting?
    ensures Run(s, acts) && |acts| <= TotalWork(s.cpus) && forall a | a in acts :: a.Interrupt?
    ensures var s' := After(s, acts);
            |s'.cpus| == |s.cpus| && s'.cpus[i].pc.Waiting? && s'.count >= s'.working - 1
    decreases TotalWork(s.cpus)
  {
    if s.count >= s.working - 1 {
      acts := [];
    } else {
      var j := WaitingHasWork(s, i);
      var a := Interrupt(j);
      StepKeepsInv(s, a);
      StepsUseWork(s, a);
      OthersStay(s, a);
      var rest := RoundCompletes(Step(s, a), i);
      acts := [a] + rest;
      assert acts[1..] == rest;
    }
  }

  // ----- every call ends -----

  // Steps of the code a processor has before it, with the interrupt steps it will cause among `n` processors.
  function CodeLeft(pc: Pc, n: nat): nat {
    match pc
    case Idle => 0
    case ReleasePaging => 1
    case ReleaseIpcall => 2
    case Waiting => 3
    case Broadcasting => 4 + 6 * n
    case ResetCount => 5 + 6 * n
    case SetFun => 6 + 6 * n
    case WantIpcall => 7 + 6 * n
    case LocalInvlpg => 8 + 6 * n
    case SetAddr => 9 + 6 * n
    case Editing => 10 + 6 * n
    case WantPaging => 11 + 6 * n
    case Barrier => 1
    case Boot => 2
  }

  function Left(c: Cpu, n: nat): nat { CodeLeft(c.pc, n) + Work(c) }

  function AllLeft(cs: seq<Cpu>, n: nat): nat {
    if cs == [] then 0 else Left(cs[0], n) + AllLeft(cs[1..], n)
  }

  lemma {:induction false} LeftSet(cs: seq<Cpu>, i: nat, c: Cpu, n: nat)
    requires i < |cs|
    ensures AllLeft(cs[i := c], n) == AllLeft(cs, n) - Left(cs[i], n) + Left(c, n)
    ensures AllLeft(cs, n) >= Left(cs[i], n)
  {
    if i == 0 {
      assert cs[i := c][1..] == cs[1..];
    } else {
      assert cs[i := c][1..] == cs[1..][i - 1 := c];
      LeftSet(cs[1..], i - 1, c, n);
    }
  }

  lemma {:induction false} LeftAtMost(cs: seq<Cpu>, cs': seq<Cpu>, n: nat, d: nat)
    requires |cs| == |cs'| && forall k | 0 <= k < |cs| :: Left(cs'[k], n) <= Left(cs[k], n) + d
    ensures AllLeft(cs', n) <= AllLeft(cs, n) + d * |cs|
  {
    if cs != [] {
      LeftAtMost(cs[1..], cs'[1..], n, d);
      assert d * |cs| == d * |cs[1..]| + d;
    }
  }

  lemma MainLowers(s: State, i: nat)
    requires Enabled(s, Main(i))
    ensures var s' := Step(s, Main(i));
            |s'.cpus| == |s.cpus| && AllLeft(s'.cpus, |s.cpus|) < AllLeft(s.cpus, |s.cpus|)
  {
    var s', n := Step(s, Main(i)), |s.cpus|;
    var cs := if s.cpus[i].pc.ResetCount? then Forget(s.cpus)
              else if s.cpus[i].pc.Broadcasting? && s.working > 1 then Notify(s.cpus, i)
              else s.cpus;
    assert s'.cpus == cs[i := s'.cpus[i]];
    LeftAtMost(s.cpus, cs, n, if s.cpus[i].pc.Broadcasting? then 6 else 0);
    LeftSet(cs, i, s'.cpus[i], n);
    hide AllLeft, Step;
    OwnLeft(s, i);
  }

  // What the processor itself has left after its step.
  lemma OwnLeft(s: State, i: nat)
    requires Enabled(s, Main(i))
    ensures var c, c', n := s.cpus[i], Step(s, Main(i)).cpus[i], |s.cpus|;
            Left(c', n) + (if c.pc.Broadcasting? then 6 * n else 0) < Left(c, n)
  {}

  /** Every step of the code and of a handler lowers what is left, unless a call starts; TLB activity adds nothing. */
  lemma StepsLower(s: State, a: Action)
    requires Enabled(s, a) && !a.Start?
    ensures |Step(s, a).cpus| == |s.cpus|
    ensures a.Main? || a.Interrupt? ==> AllLeft(Step(s, a).cpus, |s.cpus|) < AllLeft(s.cpus, |s.cpus|)
    ensures a.Fill? || a.Evict? ==> AllLeft(Step(s, a).cpus, |s.cpus|) == AllLeft(s.cpus, |s.cpus|)
  {
    hide Serve, MainStep, AllLeft;
    if a.Main? {
      MainLowers(s, a.cpu);
    } else {
      if a.Interrupt? {
        InterruptStays(s, a.cpu);
        ServeUsesWork(s.cpus[a.cpu], s.fun, s.addr);
      }
      LeftSet(s.cpus, a.cpu, Step(s, a).cpus[a.cpu], |s.cpus|);
    }
  }

  // No step of the code or of a handler is possible.
  ghost predicate Stuck(s: State) { forall a: Action | a.Main? || a.Interrupt? :: !Enabled(s, a) }

  ghost predicate Finished(s: State) { forall i | 0 <= i < |s.cpus| :: s.cpus[i].pc.Idle? && Quiet(s.cpus[i]) }

  /** Where no step of the code or of a handler is possible, every processor has finished its call. */
  lemma NoDeadlock(s: State)
    requires Inv(s) && Stuck(s)
    ensures Finished(s)
  {
    forall i | 0 <= i < |s.cpus| ensures s.cpus[i].pc.Idle? && Quiet(s.cpus[i]) {
      assert !Enabled(s, Main(i)) && !Enabled(s, Interrupt(i));
      NobodyBoots(s);
      if !s.cpus[i].pc.Idle? { Blocked(s, i); }
    }
  }

  // Without interrupts in service, a processor that cannot go on waits for a lock or for answers.
  lemma NobodyBoots(s: State)
    requires Inv(s) && Stuck(s)
    ensures forall i | 0 <= i < |s.cpus| ::
              s.cpus[i].isr.NoIsr? && s.cpus[i].pending == 0 && !s.cpus[i].pc.Boot? && !s.cpus[i].pc.Barrier?
  {
    forall i | 0 <= i < |s.cpus| ensures s.cpus[i].isr.NoIsr? && s.cpus[i].pending == 0 && !s.cpus[i].pc.Boot? {
      assert !Enabled(s, Main(i)) && !Enabled(s, Interrupt(i));
    }
    TallyBound(s.cpus, Booted);
    forall i | 0 <= i < |s.cpus| ensures !s.cpus[i].pc.Barrier? {
      assert !Enabled(s, Main(i));
    }
  }

  lemma Blocked(s: State, i: nat)
    requires Inv(s) && Stuck(s) && i < |s.cpus|
    ensures s.cpus[i].pc.Idle?
  {
    NobodyBoots(s);
    if s.ipcall.Some? {
      var j := s.ipcall.value;
      assert !Enabled(s, Main(j));
      var k := WaitingHasWork(s, j);
    }
    assert !Enabled(s, Main(i));
    if s.paging.Some? {
      assert !Enabled(s, Main(s.paging.value));
    }
  }

  function CodeSteps(acts: seq<Action>): nat {
    if acts == [] then 0 else (if acts[0].Main? || acts[0].Interrupt? then 1 else 0) + CodeSteps(acts[1..])
  }

  lemma {:induction false} StepsBounded(s: State, acts: seq<Action>)
    requires Run(s, acts) && forall a | a in acts :: !a.Start?
    ensures |After(s, acts).cpus| == |s.cpus|
    ensures CodeSteps(acts) + AllLeft(After(s, acts).cpus, |s.cpus|) <= AllLeft(s.cpus, |s.cpus|)
    decreases |acts|
  {
    if acts != [] {
      StepsLower(s, acts[0]);
      StepsBounded(Step(s, acts[0]), acts[1..]);
    }
  }

  /**
   From every reachable state, as long as no further call starts, the processors take at most so many steps as are
   left, and where they cannot take another one every call has returned.
  */
  lemma CallsEnd(n: nat, tables: map<Page, Frame>, before: seq<Action>, acts: seq<Action>)
    requires Run(Init(n, tables), before)
    requires Run(After(Init(n, tables), before), acts) && forall a | a in acts :: !a.Start?
    ensures var s := After(Init(n, tables), before);
            CodeSteps(acts) <= AllLeft(s.cpus, n) && (Stuck(After(s, acts)) ==> Finished(After(s, acts)))
  {
    var s := After(Init(n, tables), before);
    InitKeepsInv(n, tables);
    RunKeepsInv(Init(n, tables), before);
    RunKeepsSize(Init(n, tables), before);
    RunKeepsInv(s, acts);
    StepsBounded(s, acts);
    if Stuck(After(s, acts)) { NoDeadlock(After(s, acts)); }
  }
}
