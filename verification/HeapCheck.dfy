/**
 heap_consistency_check: what the kernel's own check of the heap finds on any store of linked headers. Its
 additions are on 64-bit numbers, so it compares addresses modulo 2^64.
 */
module HeapCheck {
  import opened Wrappers
  import opened Facts
  import opened Pages
  import opened HeapSpec
  import opened HeapList

  // The address behind a block, as the check computes it.
  function Behind(a: nat, h: Header): nat { (a + HEADER + h.size) % WORD }

  ghost predicate TiledModulo(start: nat, bs: seq<Block>, end: nat) {
    && bs != [] && bs[0].addr == start && End(bs[|bs| - 1]) % WORD == end
    && (forall i | 0 <= i < |bs| - 1 :: bs[i + 1].addr == End(bs[i]) % WORD)
  }

  // The headers and the variables the check starts from.
  datatype Store = Store(hdr: Headers, start: nat, end: nat, first: nat, last: nat)

  // Following links from the headers in `live` reaches only headers in `live`, and `last` links lead downwards.
  ghost predicate Followable(hdr: Headers, live: set<nat>) {
    0 !in live && forall a {:trigger FollowableAt(hdr, live, a)} | a in live :: FollowableAt(hdr, live, a)
  }

  predicate FollowableAt(hdr: Headers, live: set<nat>, a: nat) {
    && a in hdr
    && (hdr[a].next == 0 || hdr[a].next in live)
    && (hdr[a].last == 0 || (hdr[a].last in live && hdr[a].last < a))
  }

  ghost predicate Readable(s: Store, live: set<nat>) {
    Followable(s.hdr, live) && s.first in live && s.last in live
  }

  // Where the `last` links from `a` end.
  ghost function Origin(hdr: Headers, live: set<nat>, a: nat): nat
    requires Followable(hdr, live) && a in live
    decreases a
  {
    assert FollowableAt(hdr, live, a);
    if hdr[a].last == 0 then a else Origin(hdr, live, hdr[a].last)
  }

  predicate Step(hdr: Headers, bs: seq<Block>, i: nat)
    requires i < |bs|
  {
    && bs[i].addr in hdr
    && bs[i].size == hdr[bs[i].addr].size && bs[i].used == hdr[bs[i].addr].used
    && (i + 1 < |bs| ==> bs[i + 1].addr == hdr[bs[i].addr].next != 0)
  }

  // The blocks found by following `next` links.
  ghost predicate Path(hdr: Headers, bs: seq<Block>) {
    bs != [] && forall i {:trigger Step(hdr, bs, i)} | 0 <= i < |bs| :: Step(hdr, bs, i)
  }

  ghost predicate WholePath(hdr: Headers, bs: seq<Block>, first: nat, last: nat) {
    && Path(hdr, bs) && bs[0].addr == first && bs[|bs| - 1].addr == last
    && last in hdr && hdr[last].next == 0
  }

  // The `next` links lead from the first header to the last one through blocks that tile the heap.
  ghost predicate TiledForwards(s: Store) {
    exists bs :: WholePath(s.hdr, bs, s.first, s.last) && TiledModulo(s.start, bs, s.end)
  }

  // What the check accepts.
  ghost predicate Accepted(s: Store, live: set<nat>)
    requires Readable(s, live)
  {
    Origin(s.hdr, live, s.last) == s.first == s.start && TiledForwards(s)
  }

  lemma {:induction false} PathsAgree(hdr: Headers, p: seq<Block>, q: seq<Block>, n: nat)
    requires Path(hdr, p) && Path(hdr, q) && p[0].addr == q[0].addr && n < |p| && n < |q|
    ensures p[n] == q[n]
    decreases n
  {
    assert Step(hdr, p, n) && Step(hdr, q, n);
    if n > 0 {
      PathsAgree(hdr, p, q, n - 1);
      assert Step(hdr, p, n - 1) && Step(hdr, q, n - 1);
    }
  }

  lemma PathGoesOn(hdr: Headers, p: seq<Block>, n: nat)
    requires Path(hdr, p) && n < |p|
    ensures p[n].addr in hdr && p[n].size == hdr[p[n].addr].size
    ensures n + 1 < |p| ==> p[n + 1].addr == hdr[p[n].addr].next != 0
  {
    assert Step(hdr, p, n);
  }

  // A whole path from where another path starts contains all of that path.
  lemma WholePathContains(hdr: Headers, p: seq<Block>, bs: seq<Block>, first: nat, last: nat)
    requires Path(hdr, p) && p[0].addr == first && WholePath(hdr, bs, first, last)
    ensures |p| <= |bs| && p[|p| - 1] == bs[|p| - 1] && bs[|p| - 1].addr in hdr
    ensures |p| == |bs| || bs[|p|].addr == hdr[bs[|p| - 1].addr].next != 0
  {
    if |p| > |bs| {
      PathsAgree(hdr, p, bs, |bs| - 1);
      PathGoesOn(hdr, p, |bs| - 1);
      assert false;
    }
    PathsAgree(hdr, p, bs, |p| - 1);
    PathGoesOn(hdr, bs, |p| - 1);
  }

  // The part of the path the check has accepted when it has come to `entry`.
  ghost predicate Walked(hdr: Headers, bs: seq<Block>, first: nat, entry: nat) {
    && Path(hdr, bs) && bs[0].addr == first && bs[|bs| - 1].addr == entry
    && forall i | 0 <= i < |bs| - 1 :: bs[i + 1].addr == End(bs[i]) % WORD
  }

  function BlockAt(hdr: Headers, a: nat): Block
    requires a in hdr
  {
    Block(a, hdr[a].size, hdr[a].used)
  }

  lemma FirstStep(hdr: Headers, first: nat)
    requires first in hdr
    ensures Walked(hdr, [BlockAt(hdr, first)], first, first)
  {
    assert Step(hdr, [BlockAt(hdr, first)], 0);
  }

  lemma WalkOn(hdr: Headers, bs: seq<Block>, first: nat, entry: nat)
    requires Walked(hdr, bs, first, entry) && entry in hdr
    requires var next := hdr[entry].next; next != 0 && next in hdr && next == Behind(entry, hdr[entry])
    ensures Walked(hdr, bs + [BlockAt(hdr, hdr[entry].next)], first, hdr[entry].next)
  {
    var bs' := bs + [BlockAt(hdr, hdr[entry].next)];
    PathGoesOn(hdr, bs, |bs| - 1);
    assert bs'[|bs|].addr == End(bs'[|bs| - 1]) % WORD;
    forall k | 0 <= k < |bs'| ensures Step(hdr, bs', k) {
      if k < |bs| {
        PathGoesOn(hdr, bs, k);
        assert Step(hdr, bs, k);
      }
    }
  }

  lemma NoPathWithGap(s: Store, bs: seq<Block>, entry: nat)
    requires Walked(s.hdr, bs, s.first, entry) && entry in s.hdr
    requires s.hdr[entry].next != 0 && s.hdr[entry].next != Behind(entry, s.hdr[entry])
    ensures !TiledForwards(s)
  {
    forall p: seq<Block> | WholePath(s.hdr, p, s.first, s.last) ensures !TiledModulo(s.start, p, s.end) {
      WholePathContains(s.hdr, bs, p, s.first, s.last);
      PathGoesOn(s.hdr, bs, |bs| - 1);
      var i := |bs| - 1;
      assert |p| > |bs| && p[i + 1].addr != End(p[i]) % WORD;
    }
  }

  lemma WalkedAll(s: Store, bs: seq<Block>, entry: nat)
    requires Walked(s.hdr, bs, s.first, entry) && entry in s.hdr && s.hdr[entry].next == 0 && Starts(s)
    ensures TiledForwards(s) <==> entry == s.last
  {
    PathGoesOn(s.hdr, bs, |bs| - 1);
    if entry == s.last {
      assert WholePath(s.hdr, bs, s.first, s.last) && TiledModulo(s.start, bs, s.end);
    } else {
      forall p: seq<Block> | WholePath(s.hdr, p, s.first, s.last) ensures false {
        WholePathContains(s.hdr, bs, p, s.first, s.last);
      }
    }
  }

  lemma EndsBehindLast(s: Store)
    requires s.last in s.hdr && s.end != Behind(s.last, s.hdr[s.last])
    ensures !TiledForwards(s)
  {
    forall p: seq<Block> | WholePath(s.hdr, p, s.first, s.last) ensures !TiledModulo(s.start, p, s.end) {
      PathGoesOn(s.hdr, p, |p| - 1);
    }
  }

  // ----- the check step by step -----

  datatype Point = Forwards(entry: nat) | Backwards(entry: nat) | Answer(ok: bool)

  // The comparisons before the loops come out well.
  predicate Starts(s: Store) {
    s.start == s.first && s.last in s.hdr && s.end == Behind(s.last, s.hdr[s.last])
  }

  predicate At(p: Point, live: set<nat>) { p.Answer? || p.entry in live }

  // One round of one of the loops, or the way out of it.
  ghost function Next(s: Store, live: set<nat>, p: Point): (p': Point)
    requires Readable(s, live) && At(p, live)
    ensures At(p', live)
  {
    if p.Answer? then p else
    assert FollowableAt(s.hdr, live, p.entry);
    var h := s.hdr[p.entry];
    match p
    case Forwards(a) =>
      if h.next == 0 then (if a != s.last then Answer(false) else Backwards(a))
      else if h.next != Behind(a, h) then Answer(false)
      else Forwards(h.next)
    case Backwards(a) => if h.last == 0 then Answer(a == s.first) else Backwards(h.last)
  }

  // Where the check is after `n` rounds.
  ghost function After(s: Store, live: set<nat>, n: nat): (p: Point)
    requires Readable(s, live)
    ensures At(p, live)
  {
    if n == 0 then (if Starts(s) then Forwards(s.first) else Answer(false)) else Next(s, live, After(s, live, n - 1))
  }

  // The check ends, and answers `ok`.
  ghost predicate Answers(s: Store, live: set<nat>, ok: bool)
    requires Readable(s, live)
  {
    exists n: nat :: After(s, live, n) == Answer(ok)
  }

  // What is known at a point.
  ghost predicate Right(s: Store, live: set<nat>, p: Point)
    requires Readable(s, live)
  {
    match p
    case Forwards(a) => a in live && Starts(s) && exists bs :: Walked(s.hdr, bs, s.first, a)
    case Backwards(a) => a in live && Starts(s) && TiledForwards(s)
      && Origin(s.hdr, live, a) == Origin(s.hdr, live, s.last)
    case Answer(ok) => ok <==> Accepted(s, live)
  }

  lemma ForwardsKeepsRight(s: Store, live: set<nat>, a: nat)
    requires Readable(s, live) && Right(s, live, Forwards(a))
    ensures Right(s, live, Next(s, live, Forwards(a)))
  {
    hide Walked, TiledForwards;
    assert FollowableAt(s.hdr, live, a) && FollowableAt(s.hdr, live, s.last);
    var bs :| Walked(s.hdr, bs, s.first, a);
    var next := s.hdr[a].next;
    if next == 0 {
      WalkedAll(s, bs, a);
    } else if next != Behind(a, s.hdr[a]) {
      NoPathWithGap(s, bs, a);
    } else {
      assert FollowableAt(s.hdr, live, next);
      WalkOn(s.hdr, bs, s.first, a);
    }
  }

  lemma BackwardsKeepsRight(s: Store, live: set<nat>, a: nat)
    requires Readable(s, live) && Right(s, live, Backwards(a))
    ensures Right(s, live, Next(s, live, Backwards(a)))
  {
    hide TiledForwards;
    assert FollowableAt(s.hdr, live, a);
  }

  lemma {:induction false} AfterIsRight(s: Store, live: set<nat>, n: nat)
    requires Readable(s, live)
    ensures Right(s, live, After(s, live, n))
  {
    if n == 0 {
      assert FollowableAt(s.hdr, live, s.first) && FollowableAt(s.hdr, live, s.last);
      if Starts(s) {
        FirstStep(s.hdr, s.first);
      } else if s.start == s.first {
        EndsBehindLast(s);
      }
    } else {
      AfterIsRight(s, live, n - 1);
      match After(s, live, n - 1)
      case Forwards(a) => ForwardsKeepsRight(s, live, a);
      case Backwards(a) => BackwardsKeepsRight(s, live, a);
      case Answer(_) =>
    }
  }

  /** On every store with descending `last` links: whatever the check answers is right. */
  lemma AnswerIsRight(s: Store, live: set<nat>, ok: bool)
    requires Readable(s, live) && Answers(s, live, ok)
    ensures ok <==> Accepted(s, live)
  {
    var n: nat :| After(s, live, n) == Answer(ok);
    AfterIsRight(s, live, n);
  }

  // ----- when it ends -----

  // The check would go on from `a`.
  predicate GoesOn(hdr: Headers, a: nat) { a in hdr && hdr[a].next != 0 && hdr[a].next == Behind(a, hdr[a]) }

  // The header that `n` accepted `next` links lead to from `a`.
  function Reached(hdr: Headers, a: nat, n: nat): Option<nat> {
    if n == 0 then Some(a) else
    var b := Reached(hdr, a, n - 1);
    if b.Some? && GoesOn(hdr, b.value) then Some(hdr[b.value].next) else None
  }

  // The chain of accepted `next` links from `a` comes back to a header.
  ghost predicate Cyclic(hdr: Headers, a: nat) {
    exists i: nat, j: nat :: i < j && Reached(hdr, a, i).Some? && Reached(hdr, a, i) == Reached(hdr, a, j)
  }

  lemma {:induction false} NoneStays(hdr: Headers, a: nat, n: nat, m: nat)
    requires n <= m && Reached(hdr, a, n).None?
    ensures Reached(hdr, a, m).None?
    decreases m
  {
    if n < m { NoneStays(hdr, a, n, m - 1); }
  }

  lemma {:induction false} ReachedAgain(hdr: Headers, a: nat, i: nat, j: nat, k: nat)
    requires Reached(hdr, a, i) == Reached(hdr, a, j)
    ensures Reached(hdr, a, i + k) == Reached(hdr, a, j + k)
    decreases k
  {
    if k > 0 { ReachedAgain(hdr, a, i, j, k - 1); }
  }

  // A cycle is never left.
  lemma {:induction false} CycleGoesOn(hdr: Headers, a: nat, i: nat, j: nat, n: nat)
    requires i < j && Reached(hdr, a, i).Some? && Reached(hdr, a, i) == Reached(hdr, a, j)
    ensures Reached(hdr, a, n).Some?
    decreases n
  {
    if n <= j {
      if Reached(hdr, a, n).None? { NoneStays(hdr, a, n, j); }
    } else {
      ReachedAgain(hdr, a, i, j, n - j);
      CycleGoesOn(hdr, a, i, j, i + (n - j));
    }
  }

  // The headers reached in fewer than `n` steps.
  function Visited(hdr: Headers, a: nat, n: nat): set<nat> {
    set k: nat | k < n && Reached(hdr, a, k).Some? :: Reached(hdr, a, k).value
  }

  lemma {:induction false} VisitedCount(hdr: Headers, live: set<nat>, a: nat, n: nat)
    requires Followable(hdr, live) && a in live && !Cyclic(hdr, a) && Reached(hdr, a, n).Some?
    ensures Reached(hdr, a, n).value in live && Visited(hdr, a, n + 1) <= live && |Visited(hdr, a, n + 1)| == n + 1
    decreases n
  {
    var b := Reached(hdr, a, n).value;
    if n == 0 {
      assert Visited(hdr, a, 1) == {a};
    } else {
      VisitedCount(hdr, live, a, n - 1);
      assert FollowableAt(hdr, live, Reached(hdr, a, n - 1).value);
      assert Visited(hdr, a, n + 1) == Visited(hdr, a, n) + {b};
      assert b !in Visited(hdr, a, n);
    }
  }

  /** The chain comes to an end exactly when it has no cycle, and then after fewer steps than there are headers. */
  lemma EndsIffAcyclic(hdr: Headers, live: set<nat>, a: nat)
    requires Followable(hdr, live) && a in live
    ensures (exists n: nat :: Reached(hdr, a, n).None?) <==> !Cyclic(hdr, a)
    ensures !Cyclic(hdr, a) ==> Reached(hdr, a, |live|).None?
  {
    if Cyclic(hdr, a) {
      var i: nat, j: nat :| i < j && Reached(hdr, a, i).Some? && Reached(hdr, a, i) == Reached(hdr, a, j);
      forall n: nat ensures Reached(hdr, a, n).Some? {
        CycleGoesOn(hdr, a, i, j, n);
      }
    } else {
      if Reached(hdr, a, |live|).Some? {
        VisitedCount(hdr, live, a, |live|);
        SubsetSize(Visited(hdr, a, |live| + 1), live);
      }
      assert Reached(hdr, a, |live|).None?;
    }
  }

  // The first loop follows the chain.
  lemma {:induction false} ForwardsIsReached(s: Store, live: set<nat>, n: nat)
    requires Readable(s, live) && Starts(s)
    ensures After(s, live, n).Forwards? <==> Reached(s.hdr, s.first, n).Some?
    ensures After(s, live, n).Forwards? ==> Reached(s.hdr, s.first, n) == Some(After(s, live, n).entry)
  {
    if n > 0 {
      ForwardsIsReached(s, live, n - 1);
      var p := After(s, live, n - 1);
      if p.Forwards? { assert FollowableAt(s.hdr, live, p.entry); }
    }
  }

  lemma {:induction false} BackwardsEnds(s: Store, live: set<nat>, n: nat)
    requires Readable(s, live) && After(s, live, n).Backwards?
    ensures exists ok :: Answers(s, live, ok)
    decreases After(s, live, n).entry
  {
    assert FollowableAt(s.hdr, live, After(s, live, n).entry);
    if After(s, live, n + 1).Backwards? {
      BackwardsEnds(s, live, n + 1);
    } else {
      assert Answers(s, live, After(s, live, n + 1).ok);
    }
  }

  /** On such a store the check ends exactly when it does not start or the chain from the first header has no cycle. */
  lemma EndsIff(s: Store, live: set<nat>)
    requires Readable(s, live)
    ensures (exists ok :: Answers(s, live, ok)) <==> !Starts(s) || !Cyclic(s.hdr, s.first)
  {
    if !Starts(s) {
      assert After(s, live, 0) == Answer(false);
      assert Answers(s, live, false);
    } else {
      EndsIffAcyclic(s.hdr, live, s.first);
      if Cyclic(s.hdr, s.first) {
        forall n: nat ensures After(s, live, n).Forwards? { ForwardsIsReached(s, live, n); }
      } else {
        var n := |live|;
        ForwardsIsReached(s, live, n);
        if After(s, live, n).Backwards? { BackwardsEnds(s, live, n); }
        else { assert Answers(s, live, After(s, live, n).ok); }
      }
    }
  }

  /** A store on which it never ends: two blocks, the second of which wraps to the first. */
  lemma MayLoopForever()
    ensures var s := Store(map[32 := Header(32, true, 0, 96), 96 := Header(WORD - 96, true, 32, 32)], 32, 32, 32, 96);
            Readable(s, {32, 96}) && forall ok :: !Answers(s, {32, 96}, ok)
  {
    var s := Store(map[32 := Header(32, true, 0, 96), 96 := Header(WORD - 96, true, 32, 32)], 32, 32, 32, 96);
    assert FollowableAt(s.hdr, {32, 96}, 32) && FollowableAt(s.hdr, {32, 96}, 96);
    assert Reached(s.hdr, 32, 0) == Some(32) && Reached(s.hdr, 32, 1) == Some(96);
    assert Reached(s.hdr, 32, 2) == Reached(s.hdr, 32, 0);
    EndsIff(s, {32, 96});
  }

  /** heap_consistency_check. On every store on which it ends it accepts exactly the tilings modulo 2^64. */
  method HeapConsistencyCheck(s: Store, ghost live: set<nat>) returns (ok: bool)
    requires Readable(s, live) && (Starts(s) ==> !Cyclic(s.hdr, s.first))
    ensures Answers(s, live, ok) && (ok <==> Accepted(s, live))
  {
    hide Accepted, Cyclic, Next;
    assert FollowableAt(s.hdr, live, s.first) && FollowableAt(s.hdr, live, s.last);
    ghost var n := 0;
    if s.start != s.first || s.end != Behind(s.last, s.hdr[s.last]) {
      AnswerAt(s, live, n);
      return false;
    }
    EndsIffAcyclic(s.hdr, live, s.first);
    var entry := s.first;
    while s.hdr[entry].next != 0
      invariant entry in live && FollowableAt(s.hdr, live, entry) && After(s, live, n) == Forwards(entry)
      decreases |live| - n
    {
      ForwardsIsReached(s, live, n);
      if n >= |live| { NoneStays(s.hdr, s.first, |live|, n); }
      NextIs(s, live, n);
      if s.hdr[entry].next != Behind(entry, s.hdr[entry]) {
        AnswerAt(s, live, n + 1);
        return false;
      }
      entry, n := s.hdr[entry].next, n + 1;
      assert FollowableAt(s.hdr, live, entry);
    }
    NextIs(s, live, n);
    n := n + 1;
    if entry != s.last {
      AnswerAt(s, live, n);
      return false;
    }
    while s.hdr[entry].last != 0
      invariant entry in live && FollowableAt(s.hdr, live, entry) && After(s, live, n) == Backwards(entry)
      decreases entry
    {
      NextIs(s, live, n);
      entry, n := s.hdr[entry].last, n + 1;
      assert FollowableAt(s.hdr, live, entry);
    }
    NextIs(s, live, n);
    ok := entry == s.first;
    AnswerAt(s, live, n + 1);
  }

  lemma AnswerAt(s: Store, live: set<nat>, n: nat)
    requires Readable(s, live) && After(s, live, n).Answer?
    ensures var ok := After(s, live, n).ok; Answers(s, live, ok) && (ok <==> Accepted(s, live))
  {
    AfterIsRight(s, live, n);
  }

  lemma NextIs(s: Store, live: set<nat>, n: nat)
    requires Readable(s, live) && !After(s, live, n).Answer?
    ensures var p := After(s, live, n);
            && p.entry in s.hdr
            && After(s, live, n + 1) ==
               (match p
                case Forwards(a) =>
                  if s.hdr[a].next == 0 then (if a != s.last then Answer(false) else Backwards(a))
                  else if s.hdr[a].next != Behind(a, s.hdr[a]) then Answer(false)
                  else Forwards(s.hdr[a].next)
                case Backwards(a) => if s.hdr[a].last == 0 then Answer(a == s.first) else Backwards(s.hdr[a].last)
                case Answer(_) => p)
  {
    assert FollowableAt(s.hdr, live, After(s, live, n).entry);
  }

  // ----- what it finds in a heap -----

  function Addresses(bs: seq<Block>): set<nat> { set i | 0 <= i < |bs| :: bs[i].addr }

  lemma LiveFollowable(hdr: Headers, bs: seq<Block>)
    requires InList(hdr, bs)
    ensures Followable(hdr, Addresses(bs))
  {
    forall a | a in Addresses(bs) ensures 0 < a && FollowableAt(hdr, Addresses(bs), a) {
      var i :| 0 <= i < |bs| && bs[i].addr == a;
      assert AtHome(hdr, bs, i);
    }
  }

  lemma {:induction false} OriginIsFirst(hdr: Headers, bs: seq<Block>, i: nat)
    requires InList(hdr, bs) && i < |bs| && Followable(hdr, Addresses(bs))
    ensures bs[i].addr in Addresses(bs) && Origin(hdr, Addresses(bs), bs[i].addr) == bs[0].addr
    decreases i
  {
    assert AtHome(hdr, bs, i);
    if i > 0 {
      OriginIsFirst(hdr, bs, i - 1);
      assert bs[i - 1].addr > 0 by { if i > 1 { assert bs[0].addr < bs[i - 1].addr; } }
    }
  }

  lemma ListIsPath(hdr: Headers, bs: seq<Block>)
    requires InList(hdr, bs)
    ensures WholePath(hdr, bs, bs[0].addr, bs[|bs| - 1].addr)
  {
    forall i | 0 <= i < |bs| ensures Step(hdr, bs, i) {
      assert AtHome(hdr, bs, i);
    }
    assert AtHome(hdr, bs, |bs| - 1);
  }

  // In a list accepted links lead upwards, so there is no cycle.
  lemma {:induction false} ReachedInList(hdr: Headers, bs: seq<Block>, n: nat)
    requires InList(hdr, bs) && Reached(hdr, bs[0].addr, n).Some?
    ensures n < |bs| && Reached(hdr, bs[0].addr, n).value == bs[n].addr
    decreases n
  {
    if n > 0 {
      ReachedInList(hdr, bs, n - 1);
      LinksNull(hdr, bs, n - 1);
    }
  }

  lemma ListIsAcyclic(hdr: Headers, bs: seq<Block>)
    requires InList(hdr, bs)
    ensures !Cyclic(hdr, bs[0].addr)
  {
    forall i: nat, j: nat | i < j && Reached(hdr, bs[0].addr, i).Some? && Reached(hdr, bs[0].addr, j).Some?
      ensures Reached(hdr, bs[0].addr, i) != Reached(hdr, bs[0].addr, j)
    {
      ReachedInList(hdr, bs, i);
      ReachedInList(hdr, bs, j);
    }
  }

  /** On a heap whose headers are linked in order the check ends, and decides whether the blocks tile it modulo 2^64. */
  lemma AcceptedIffTiled(hdr: Headers, bs: seq<Block>, start: nat, end: nat)
    requires InList(hdr, bs) && start == bs[0].addr
    ensures var s := Store(hdr, start, end, bs[0].addr, bs[|bs| - 1].addr);
            && Readable(s, Addresses(bs)) && !Cyclic(hdr, s.first)
            && (Accepted(s, Addresses(bs)) <==> TiledModulo(start, bs, end))
  {
    var first, last := bs[0].addr, bs[|bs| - 1].addr;
    LiveFollowable(hdr, bs);
    ListIsAcyclic(hdr, bs);
    OriginIsFirst(hdr, bs, |bs| - 1);
    ListIsPath(hdr, bs);
    forall p | WholePath(hdr, p, first, last) ensures p == bs {
      WholePathContains(hdr, p, bs, first, last);
      WholePathContains(hdr, bs, p, first, last);
      forall n | 0 <= n < |p| ensures p[n] == bs[n] {
        PathsAgree(hdr, p, bs, n);
      }
    }
  }

  /** Where no block's end wraps, tiling modulo 2^64 is tiling: the check is exact. */
  lemma TiledIffNoWrap(start: nat, bs: seq<Block>, end: nat)
    requires forall i | 0 <= i < |bs| :: End(bs[i]) < WORD
    ensures TiledModulo(start, bs, end) <==> Tiled(start, bs, end)
  {
    assert forall i | 0 <= i < |bs| :: End(bs[i]) % WORD == End(bs[i]);
  }

  /** Every valid heap passes. */
  lemma ValidPasses(start: nat, bs: seq<Block>, end: nat)
    requires HeapSpec.Valid(start, bs, end)
    ensures TiledModulo(start, bs, end)
  {
    forall i | 0 <= i < |bs| ensures End(bs[i]) < WORD {
      AddressAligned(start, bs, end, i);
    }
    TiledIffNoWrap(start, bs, end);
  }

  /**
   The check does not notice a trim that underflowed: the heap passes although its last block claims 2^64 - 16
   bytes.
  */
  lemma UnderflowPasses(start: nat, bs: seq<Block>, end: nat, i: nat)
    requires HeapSpec.Valid(start, bs, end) && i < |bs| && bs[i].used && Underflows(bs, end, i)
    ensures var (bs', end') := Free(bs, end, i);
            && TiledModulo(start, bs', end') && !Tiled(start, bs', end')
            && bs'[|bs'| - 1].size == WORD - UNIT
  {
    ReleaseKeeps(start, bs, end, i);
    UnderflowsIff(start, bs, end, i);
    var (bs1, k) := Release(bs, i);
    TrimPasses(start, bs1, end, k);
  }

  lemma TrimPasses(start: nat, bs: seq<Block>, end: nat, k: nat)
    requires HeapSpec.Valid(start, bs, end) && Trims(bs, end, k) && bs[k].addr % PAGE == PAGE - UNIT
    ensures var (bs', end') := Trimmed(bs, end, k);
            && TiledModulo(start, bs', end') && !Tiled(start, bs', end')
            && bs'[|bs'| - 1].size == WORD - UNIT
  {
    hide AlignUp;
    AddressAligned(start, bs, end, k);
    NextBoundary(bs[k].addr, end);
    var (bs', end') := Trimmed(bs, end, k);
    assert bs'[k].size == WORD - UNIT && end' == bs[k].addr + UNIT;
    assert End(bs'[k]) == WORD + end';
    forall j | 0 <= j < |bs'| - 1 ensures bs'[j + 1].addr == End(bs'[j]) % WORD {
      assert bs'[j] == bs[j] && bs'[j + 1].addr == bs[j + 1].addr;
      AddressAligned(start, bs, end, j);
    }
  }
}
