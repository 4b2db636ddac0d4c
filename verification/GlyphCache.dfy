/**
 The glyph cache: 100 entries, each with the number of the request that used it last. It must be invisible to its
 callers, and keep the glyphs that were asked for most recently.
 */
module GlyphCache {
  import opened Facts

  const SIZE := 100
  const WORD := 0x1_0000_0000_0000_0000

  datatype Entry<B> = Entry(ch: nat, priority: int, bitmap: B)

  // A request number as the entries hold it: its low 32 bits, signed.
  function Int32(n: nat): int {
    var low := n % 0x1_0000_0000;
    if low < 0x8000_0000 then low else low - 0x1_0000_0000
  }

  datatype State<B> = State(cur: nat, entries: seq<Entry<B>>)

  // The number of the next request. 0 is skipped, and then all entries become oldest.
  function Tick<B>(s: State<B>): State<B> {
    var cur := (s.cur + 1) % WORD;
    if cur == 0 then State(1, seq(|s.entries|, i requires 0 <= i < |s.entries| => s.entries[i].(priority := 0)))
    else s.(cur := cur)
  }

  // The first entry for `ch`; |es| if there is none.
  function Find<B>(es: seq<Entry<B>>, ch: nat): (i: nat)
    ensures i <= |es| && (i < |es| ==> es[i].ch == ch) && forall j | 0 <= j < i :: es[j].ch != ch
  {
    if es == [] then 0 else if es[0].ch == ch then 0 else 1 + Find(es[1..], ch)
  }

  lemma TickOn<B>(s: State<B>)
    requires s.cur + 1 < WORD
    ensures Tick(s) == s.(cur := s.cur + 1)
  {}

  predicate Cached<B>(es: seq<Entry<B>>, ch: nat) { exists i :: 0 <= i < |es| && es[i].ch == ch }

  // Entry `v` is the first of those with the lowest priority below `p`; entry 0 if none is below.
  ghost predicate IsVictim<B>(es: seq<Entry<B>>, p: int, v: nat) {
    && v < |es|
    && if forall i | 0 <= i < |es| :: es[i].priority >= p then v == 0
       else && es[v].priority < p && (forall i | 0 <= i < |es| :: es[v].priority <= es[i].priority)
            && (forall i | 0 <= i < v :: es[v].priority < es[i].priority)
  }

  // What one request for `ch` does; `glyph` is the rendering of `ch`.
  ghost predicate Served<B>(s: State<B>, s': State<B>, ch: nat, glyph: B, bitmap: B) {
    var t := Tick(s);
    var i := Find(t.entries, ch);
    && s'.cur == t.cur
    && if i < |t.entries| then
         s'.entries == t.entries[i := t.entries[i].(priority := Int32(t.cur))] && bitmap == t.entries[i].bitmap
       else
         bitmap == glyph && exists v: nat :: IsVictim(t.entries, Int32(t.cur), v)
                              && s'.entries == t.entries[v := Entry(ch, Int32(t.cur), glyph)]
  }

  class Cache<B> {
    const render: nat -> B
    var cur: nat
    const entries: array<Entry<B>>

    // After init_font the cache is zeroed: `blank` stands for the bitmap of zeros.
    constructor (render: nat -> B, blank: B)
      ensures this.render == render && entries.Length == SIZE && fresh(entries)
      ensures Contents() == Start(blank)
    {
      this.render := render;
      cur := 0;
      entries := new Entry<B>[SIZE](_ => Entry(0, 0, blank));
    }

    ghost function Contents(): State<B>
      reads this, entries
    {
      State(cur, entries[..])
    }

    method GetGlyph(ch: nat) returns (bitmap: B)
      requires entries.Length == SIZE
      modifies `cur, entries
      ensures Served(old(Contents()), Contents(), ch, render(ch), bitmap)
    {
      hide Tick, Int32, IsVictim;
      NextNumber();
      var found, index := Scan(ch);
      if found {
        entries[index] := entries[index].(priority := Int32(cur));
        return entries[index].bitmap;
      }
      entries[index] := Entry(ch, Int32(cur), render(ch));
      bitmap := entries[index].bitmap;
    }

    // Counts the request; after 2^64 of them all entries become oldest.
    method NextNumber()
      requires entries.Length == SIZE
      modifies `cur, entries
      ensures Contents() == Tick(old(Contents()))
    {
      ghost var was := entries[..];
      cur := (cur + 1) % WORD;
      if cur == 0 {
        cur := 1;
        for i := 0 to SIZE
          invariant cur == 1
          invariant forall j | 0 <= j < i :: entries[j] == was[j].(priority := 0)
          invariant forall j | i <= j < SIZE :: entries[j] == was[j]
        {
          entries[i] := entries[i].(priority := 0);
        }
      }
    }

    // The entry for `ch`, or the one to replace.
    method Scan(ch: nat) returns (found: bool, index: nat)
      requires entries.Length == SIZE
      ensures index < SIZE && found == (Find(entries[..], ch) < SIZE)
      ensures if found then index == Find(entries[..], ch) else IsVictim(entries[..], Int32(cur), index)
    {
      hide Int32;
      found, index := false, 0;
      var priority := Int32(cur);
      for i := 0 to SIZE
        invariant forall j | 0 <= j < i :: entries[j].ch != ch
        invariant 0 <= index < SIZE && priority <= Int32(cur)
        invariant if priority == Int32(cur) then index == 0 && forall j | 0 <= j < i :: entries[j].priority >= priority
                  else && index < i && entries[index].priority == priority
                       && (forall j | 0 <= j < i :: priority <= entries[j].priority)
                       && (forall j | 0 <= j < index :: priority < entries[j].priority)
      {
        if entries[i].ch == ch {
          return true, i;
        }
        if entries[i].priority < priority {
          index, priority := i, entries[i].priority;
        }
      }
    }
  }

  function Start<B>(blank: B): State<B> { State(0, seq(SIZE, _ => Entry(0, 0, blank))) }

  // ----- runs -----

  // The cache goes through `states` while it serves requests `h`, answering `bitmaps`.
  ghost predicate Run<B>(render: nat -> B, blank: B, h: seq<nat>, states: seq<State<B>>, bitmaps: seq<B>) {
    && |bitmaps| == |h| && |states| == |h| + 1 && states[0] == Start(blank)
    && forall k | 0 <= k < |h| :: Served(states[k], states[k + 1], h[k], render(h[k]), bitmaps[k])
  }

  // Every entry that has been filled holds the rendering of its character.
  ghost predicate Faithful<B>(render: nat -> B, s: State<B>) {
    |s.entries| == SIZE && forall i | 0 <= i < SIZE :: s.entries[i].ch != 0 ==>
      s.entries[i].bitmap == render(s.entries[i].ch)
  }

  lemma ServedFaithful<B>(render: nat -> B, s: State<B>, s': State<B>, ch: nat, bitmap: B)
    requires Faithful(render, s) && Served(s, s', ch, render(ch), bitmap)
    ensures Faithful(render, s') && (ch != 0 ==> bitmap == render(ch))
  {}

  /** Transparency, for every run of any length: a request for a non-zero character is answered by its rendering. */
  lemma {:induction false} AnswersAreRenderings<B>(render: nat -> B, blank: B, h: seq<nat>, states: seq<State<B>>,
      bitmaps: seq<B>, n: nat)
    requires Run(render, blank, h, states, bitmaps) && n <= |h|
    ensures Faithful(render, states[n])
    ensures forall k | 0 <= k < n && h[k] != 0 :: bitmaps[k] == render(h[k])
    decreases n
  {
    if n > 0 {
      hide Served, Faithful;
      AnswersAreRenderings(render, blank, h, states, bitmaps, n - 1);
      ServedFaithful(render, states[n - 1], states[n], h[n - 1], bitmaps[n - 1]);
    }
  }

  /**
   The request at which the 64-bit number rolls over: it gets number 1, all entries become equally old but the one that
   serves it, which is the first with its character, or else entry 0, and no other entry loses its character.
  */
  lemma RolloverStartsOver<B>(s: State<B>, s': State<B>, ch: nat, glyph: B, bitmap: B)
    requires s.cur == WORD - 1 && |s.entries| == SIZE && Served(s, s', ch, glyph, bitmap)
    ensures s'.cur == 1 && |s'.entries| == SIZE
    ensures var v := if Cached(s.entries, ch) then Find(s.entries, ch) else 0;
            && v < SIZE && s'.entries[v] == Entry(ch, 1, if Cached(s.entries, ch) then s.entries[v].bitmap else glyph)
            && (forall i | 0 <= i < SIZE && i != v :: s'.entries[i] == s.entries[i].(priority := 0))
  {
    var t := Tick(s);
    assert t.cur == 1 && |t.entries| == SIZE;
    FindAlike(s.entries, t.entries, ch);
    if Cached(s.entries, ch) {
      assert Find(s.entries, ch) < SIZE;
    }
  }

  // Where a character is found depends on the characters only.
  lemma FindAlike<B>(es: seq<Entry<B>>, es': seq<Entry<B>>, ch: nat)
    requires |es| == |es'| && forall i | 0 <= i < |es| :: es'[i].ch == es[i].ch
    ensures Find(es', ch) == Find(es, ch)
  {}

  // ----- least recently used -----

  // The number of the last request for `ch`; 0 if there was none.
  function LastUse(h: seq<nat>, ch: nat): (n: nat)
    ensures n <= |h|
  {
    if h == [] then 0 else if h[|h| - 1] == ch then |h| else LastUse(h[..|h| - 1], ch)
  }

  lemma {:induction false} LastUseIs(h: seq<nat>, ch: nat)
    ensures var n := LastUse(h, ch);
            && (n > 0 <==> ch in h) && (n > 0 ==> h[n - 1] == ch)
            && (forall k | n <= k < |h| :: h[k] != ch)
  {
    if h != [] && h[|h| - 1] != ch {
      LastUseIs(h[..|h| - 1], ch);
      assert h == h[..|h| - 1] + [h[|h| - 1]];
    }
  }

  // The distinct characters asked for since the last request for `ch`.
  function Since(h: seq<nat>, ch: nat): set<nat> { set k | LastUse(h, ch) <= k < |h| :: h[k] }

  // An entry is dated by the last request for its character, or has not been filled.
  predicate Dated<B>(h: seq<nat>, e: Entry<B>) {
    e.priority == LastUse(h, e.ch) && (e.ch != 0 ==> e.ch in h)
  }

  // What the entries hold after requests `h`, while request numbers fit into 31 bits.
  ghost predicate Lru<B>(h: seq<nat>, s: State<B>) {
    && s.cur == |h| && |s.entries| == SIZE
    && (forall i | 0 <= i < SIZE :: Dated(h, s.entries[i]))
    && OneEach(s.entries)
    && (forall c, i | c in h && !Cached(s.entries, c) && 0 <= i < SIZE :: LastUse(h, c) < s.entries[i].priority)
  }

  // No character is in two entries.
  ghost predicate OneEach<B>(es: seq<Entry<B>>) {
    forall i, j | 0 <= i < j < |es| && es[i].ch != 0 :: es[i].ch != es[j].ch
  }

  lemma LastUseAppend(h: seq<nat>, ch: nat, c: nat)
    ensures LastUse(h + [ch], c) == if c == ch then |h| + 1 else LastUse(h, c)
  {
    assert (h + [ch])[..|h|] == h;
  }

  lemma ServedHit<B>(h: seq<nat>, s: State<B>, s': State<B>, ch: nat, i: nat)
    requires Lru(h, s) && ch != 0 && i < SIZE && s.entries[i].ch == ch
    requires s' == State(|h| + 1, s.entries[i := s.entries[i].(priority := |h| + 1)])
    ensures Lru(h + [ch], s')
  {
    hide LastUse;
    var h' := h + [ch];
    forall k | 0 <= k < SIZE ensures Dated(h', s'.entries[k]) {
      LastUseAppend(h, ch, s.entries[k].ch);
      assert Dated(h, s.entries[k]);
    }
    forall c, k | c in h' && !Cached(s'.entries, c) && 0 <= k < SIZE ensures LastUse(h', c) < s'.entries[k].priority {
      LastUseAppend(h, ch, c);
      assert s'.entries[i].ch == ch;
      SameCached(s.entries, s'.entries, c);
    }
  }

  lemma SameCached<B>(es: seq<Entry<B>>, es': seq<Entry<B>>, c: nat)
    requires |es| == |es'| && forall i | 0 <= i < |es| :: es[i].ch == es'[i].ch
    ensures Cached(es, c) == Cached(es', c)
  {
    if Cached(es, c) { var i :| 0 <= i < |es| && es[i].ch == c; assert es'[i].ch == c; }
    if Cached(es', c) { var i :| 0 <= i < |es'| && es'[i].ch == c; assert es[i].ch == c; }
  }

  lemma ServedMiss<B>(h: seq<nat>, s: State<B>, s': State<B>, ch: nat, v: nat, glyph: B)
    requires Lru(h, s) && ch != 0 && 0 !in h && !Cached(s.entries, ch) && IsVictim(s.entries, |h| + 1, v)
    requires s' == State(|h| + 1, s.entries[v := Entry(ch, |h| + 1, glyph)])
    ensures Lru(h + [ch], s')
  {
    hide LastUse;
    var h' := h + [ch];
    forall k | 0 <= k < SIZE ensures Dated(h', s'.entries[k]) {
      LastUseAppend(h, ch, s'.entries[k].ch);
      assert Dated(h, s.entries[k]) && s.entries[k].ch != ch;
    }
    VictimIsOldest(h, s, v);
    forall c, k | c in h' && !Cached(s'.entries, c) && 0 <= k < SIZE ensures LastUse(h', c) < s'.entries[k].priority {
      LastUseAppend(h, ch, c);
      assert s'.entries[v].ch == ch;
      if Cached(s.entries, c) {
        OnlyVictimLeaves(s.entries, v, s'.entries[v], c);
        assert Dated(h, s.entries[v]);
        if k != v { OthersUsedLater(h, s, v, k); }
      }
    }
  }

  lemma OnlyVictimLeaves<B>(es: seq<Entry<B>>, v: nat, e: Entry<B>, c: nat)
    requires v < |es| && Cached(es, c) && !Cached(es[v := e], c)
    ensures es[v].ch == c
  {
    forall j | 0 <= j < |es| && j != v ensures es[j].ch != c {
      assert es[v := e][j] == es[j];
    }
  }

  lemma VictimIsOldest<B>(h: seq<nat>, s: State<B>, v: nat)
    requires Lru(h, s) && IsVictim(s.entries, |h| + 1, v)
    ensures forall k | 0 <= k < SIZE :: s.entries[v].priority <= s.entries[k].priority
  {
    assert Dated(h, s.entries[0]);
  }

  // No other entry was used in the same request as a filled one.
  lemma OthersUsedLater<B>(h: seq<nat>, s: State<B>, v: nat, k: nat)
    requires Lru(h, s) && 0 !in h && v < SIZE && k < SIZE && k != v && s.entries[v].ch != 0
    requires s.entries[v].priority <= s.entries[k].priority
    ensures s.entries[v].priority < s.entries[k].priority
  {
    assert Dated(h, s.entries[v]) && Dated(h, s.entries[k]);
    LastUseIs(h, s.entries[v].ch);
    LastUseIs(h, s.entries[k].ch);
  }

  lemma ServedLru<B>(h: seq<nat>, s: State<B>, s': State<B>, ch: nat, glyph: B, bitmap: B)
    requires Lru(h, s) && |h| + 1 < 0x8000_0000 && ch != 0 && 0 !in h && Served(s, s', ch, glyph, bitmap)
    ensures Lru(h + [ch], s')
  {
    hide Tick;
    TickOn(s);
    assert Int32(|h| + 1) == |h| + 1;
    var i := Find(s.entries, ch);
    if i < SIZE {
      ServedHit(h, s, s', ch, i);
    } else {
      assert !Cached(s.entries, ch);
      var v: nat :| IsVictim(s.entries, |h| + 1, v) && s'.entries == s.entries[v := Entry(ch, |h| + 1, glyph)];
      ServedMiss(h, s, s', ch, v, glyph);
    }
  }

  /** While fewer than 2^31 requests have been made, for characters other than 0, the cache is as Lru describes it. */
  lemma {:induction false} RunIsLru<B>(render: nat -> B, blank: B, h: seq<nat>, states: seq<State<B>>,
      bitmaps: seq<B>, n: nat)
    requires Run(render, blank, h, states, bitmaps) && 0 !in h && n <= |h| && n < 0x8000_0000
    ensures Lru(h[..n], states[n])
    decreases n
  {
    if n > 0 {
      hide Served, Lru;
      RunIsLru(render, blank, h, states, bitmaps, n - 1);
      assert h[..n - 1] + [h[n - 1]] == h[..n];
      ServedLru(h[..n - 1], states[n - 1], states[n], h[n - 1], render(h[n - 1]), bitmaps[n - 1]);
    } else {
      assert Lru([], Start(blank));
    }
  }

  // The characters of the first `n` entries.
  function Chars<B>(es: seq<Entry<B>>, n: nat): set<nat>
    requires n <= |es|
  {
    set i | 0 <= i < n :: es[i].ch
  }

  lemma CharsOneMore<B>(es: seq<Entry<B>>, n: nat)
    requires 0 < n <= |es|
    ensures Chars(es, n) == Chars(es, n - 1) + {es[n - 1].ch}
  {}

  lemma {:induction false} CountChars<B>(es: seq<Entry<B>>, n: nat)
    requires n <= |es| && forall i, j | 0 <= i < j < n :: es[i].ch != es[j].ch
    ensures |Chars(es, n)| == n
  {
    if n > 0 {
      CountChars(es, n - 1);
      CharsOneMore(es, n);
      assert es[n - 1].ch !in Chars(es, n - 1);
    }
  }

  lemma SinceIsLater(h: seq<nat>, c: nat, d: nat)
    ensures d in Since(h, c) <==> d in h && LastUse(h, d) > LastUse(h, c)
  {
    LastUseIs(h, c);
    LastUseIs(h, d);
    if d in h && LastUse(h, d) > LastUse(h, c) {
      assert h[LastUse(h, d) - 1] == d;
    }
  }

  /**
   Exact LRU: the entries hold exactly the characters that fewer than 100 distinct others have been asked for
   since, so the next request for `c` hits if and only if that is so.
   */
  lemma CachedIffRecent<B>(h: seq<nat>, s: State<B>, c: nat)
    requires Lru(h, s) && 0 !in h && c != 0
    ensures Cached(s.entries, c) <==> c in h && |Since(h, c)| < SIZE
  {
    if Cached(s.entries, c) {
      HeldIsRecent(h, s, c);
    } else if c in h {
      DroppedIsOld(h, s, c);
    }
  }

  /** The same over runs: whether the next request hits, after any `n` requests, fewer than 2^31. */
  lemma HitIffRecent<B>(render: nat -> B, blank: B, h: seq<nat>, states: seq<State<B>>, bitmaps: seq<B>, n: nat, c: nat)
    requires Run(render, blank, h, states, bitmaps) && 0 !in h && n <= |h| && n < 0x8000_0000 && c != 0
    ensures Cached(states[n].entries, c) <==> c in h[..n] && |Since(h[..n], c)| < SIZE
  {
    RunIsLru(render, blank, h, states, bitmaps, n);
    CachedIffRecent(h[..n], states[n], c);
  }

  lemma SinceIsHeld<B>(h: seq<nat>, s: State<B>, c: nat, d: nat)
    requires Lru(h, s) && 0 !in h && c != 0 && Cached(s.entries, c) && d in Since(h, c)
    ensures d != c && exists k :: 0 <= k < SIZE && s.entries[k].ch == d
  {
    var i :| 0 <= i < SIZE && s.entries[i].ch == c;
    assert Dated(h, s.entries[i]);
    SinceIsLater(h, c, d);
    assert Cached(s.entries, d);
  }

  lemma HeldIsRecent<B>(h: seq<nat>, s: State<B>, c: nat)
    requires Lru(h, s) && 0 !in h && c != 0 && Cached(s.entries, c)
    ensures c in h && |Since(h, c)| < SIZE
  {
    var i :| 0 <= i < SIZE && s.entries[i].ch == c;
    var others := s.entries[..i] + s.entries[i + 1..];
    assert Dated(h, s.entries[i]);
    forall d | d in Since(h, c) ensures d in Chars(others, SIZE - 1) {
      SinceIsHeld(h, s, c, d);
      var k :| 0 <= k < SIZE && s.entries[k].ch == d && d != c;
      assert others[if k < i then k else k - 1].ch == d;
    }
    AtMost(others, SIZE - 1);
    SubsetSize(Since(h, c), Chars(others, SIZE - 1));
  }

  lemma {:induction false} AtMost<B>(es: seq<Entry<B>>, n: nat)
    requires n <= |es|
    ensures |Chars(es, n)| <= n
  {
    if n > 0 {
      AtMost(es, n - 1);
      CharsOneMore(es, n);
    }
  }

  lemma DroppedIsOld<B>(h: seq<nat>, s: State<B>, c: nat)
    requires Lru(h, s) && 0 !in h && c in h && !Cached(s.entries, c)
    ensures |Since(h, c)| >= SIZE
  {
    forall i | 0 <= i < SIZE ensures s.entries[i].ch != 0 && s.entries[i].ch in Since(h, c) {
      assert LastUse(h, c) < s.entries[i].priority && Dated(h, s.entries[i]);
      LastUseIs(h, s.entries[i].ch);
      SinceIsLater(h, c, s.entries[i].ch);
    }
    CountChars(s.entries, SIZE);
    SubsetSize(Chars(s.entries, SIZE), Since(h, c));
  }

  /**
   From request 2^31 on this fails: the number is negative in an entry, so a miss then replaces entry 0 whatever
   its age, and a second miss replaces what the first one brought in.
   */
  lemma NotLruAfterWrap<B>(s: State<B>, s1: State<B>, s2: State<B>, a: nat, b: nat, g: B, g': B, m: B, m': B)
    requires |s.entries| == SIZE && s.cur == 0x7FFF_FFFF
    requires forall i | 0 <= i < SIZE :: 0 <= s.entries[i].priority
    requires !Cached(s.entries, a) && !Cached(s.entries, b) && a != b
    requires Served(s, s1, a, g, m) && Served(s1, s2, b, g', m')
    ensures s1.entries == s.entries[0 := Entry(a, -0x8000_0000, g)]
    ensures !Cached(s2.entries, a) && forall i | 0 < i < SIZE :: s2.entries[i] == s.entries[i]
  {
    hide Tick;
    TickOn(s);
    TickOn(s1);
    assert Find(s.entries, a) == SIZE;
    assert s1.entries == s.entries[0 := Entry(a, -0x8000_0000, g)];
    assert Find(s1.entries, b) == SIZE;
    assert s1.entries[0].priority < Int32(s1.cur + 1);
  }

  // ----- for how many requests that holds -----

  // After every run of fewer than `limit` requests the entries are the characters that fewer than 100 distinct
  // others have been asked for since.
  ghost predicate ExactFor<B(!new)>(render: nat -> B, blank: B, limit: nat) {
    forall h: seq<nat>, states: seq<State<B>>, bitmaps: seq<B>, c: nat
      | Run(render, blank, h, states, bitmaps) && 0 !in h && |h| < limit && c != 0 ::
      Cached(states[|h|].entries, c) <==> c in h && |Since(h, c)| < SIZE
  }

  const LAST_POSITIVE := 0x7FFF_FFFF

  // 2^31 - 1 requests for character 1, then one for character 2.
  function LongRun(): seq<nat> { seq(LAST_POSITIVE + 1, k => if k < LAST_POSITIVE then 1 else 2) }

  function LongAnswers<B>(render: nat -> B): seq<B> {
    seq(LAST_POSITIVE + 1, k => if k < LAST_POSITIVE then render(1) else render(2))
  }

  // The cache after `k` of these requests: only entry 0 is ever used.
  function LongState<B>(render: nat -> B, blank: B, k: nat): State<B> {
    var es := Start(blank).entries;
    if k == 0 then Start(blank)
    else if k <= LAST_POSITIVE then State(k, es[0 := Entry(1, k, render(1))])
    else State(k, es[0 := Entry(2, -0x8000_0000, render(2))])
  }

  function LongStates<B>(render: nat -> B, blank: B): seq<State<B>> {
    seq(LAST_POSITIVE + 2, k requires 0 <= k => LongState(render, blank, k))
  }

  lemma LongStep<B>(render: nat -> B, blank: B, k: nat)
    requires k <= LAST_POSITIVE
    ensures var ch := LongRun()[k];
            Served(LongState(render, blank, k), LongState(render, blank, k + 1), ch, render(ch), LongAnswers(render)[k])
  {
    if k == 0 {
      LongFirst(render, blank);
    } else if k < LAST_POSITIVE {
      LongHit(render, blank, k);
    } else {
      LongLast(render, blank);
    }
  }

  lemma LongFirst<B>(render: nat -> B, blank: B)
    ensures Served(LongState(render, blank, 0), LongState(render, blank, 1), 1, render(1), render(1))
  {
    hide Tick;
    var s, s' := LongState(render, blank, 0), LongState(render, blank, 1);
    TickOn(s);
    FindNone(s.entries, 1);
    var low := Int32(1);
    assert low == 1;
    assert IsVictim(s.entries, low, 0);
    assert s'.entries == s.entries[0 := Entry(1, low, render(1))];
  }

  lemma LongHit<B>(render: nat -> B, blank: B, k: nat)
    requires 0 < k < LAST_POSITIVE
    ensures Served(LongState(render, blank, k), LongState(render, blank, k + 1), 1, render(1), render(1))
  {
    hide Tick;
    var s, s' := LongState(render, blank, k), LongState(render, blank, k + 1);
    TickOn(s);
    assert Find(s.entries, 1) == 0;
    assert s'.entries == s.entries[0 := s.entries[0].(priority := k + 1)];
  }

  lemma LongLast<B>(render: nat -> B, blank: B)
    ensures var k := LAST_POSITIVE;
            Served(LongState(render, blank, k), LongState(render, blank, k + 1), 2, render(2), render(2))
  {
    hide Tick;
    var s, s' := LongState(render, blank, LAST_POSITIVE), LongState(render, blank, LAST_POSITIVE + 1);
    TickOn(s);
    FindNone(s.entries, 2);
    var low := Int32(LAST_POSITIVE + 1);
    assert low == -0x8000_0000;
    assert IsVictim(s.entries, low, 0);
    assert s'.entries == s.entries[0 := Entry(2, low, render(2))];
  }

  lemma FindNone<B>(es: seq<Entry<B>>, ch: nat)
    requires forall i | 0 <= i < |es| :: es[i].ch != ch
    ensures Find(es, ch) == |es|
  {}

  lemma LongRunIsRun<B>(render: nat -> B, blank: B)
    ensures Run(render, blank, LongRun(), LongStates(render, blank), LongAnswers(render))
  {
    hide Served;
    var h, states, bitmaps := LongRun(), LongStates(render, blank), LongAnswers(render);
    forall k | 0 <= k < |h| ensures Served(states[k], states[k + 1], h[k], render(h[k]), bitmaps[k]) {
      LongStep(render, blank, k);
    }
  }

  // Since character 1 was asked for last there has been one other.
  lemma LongRunSince()
    ensures 1 in LongRun() && 0 !in LongRun() && Since(LongRun(), 1) == {2}
  {
    hide LastUse;
    var h := LongRun();
    LastUseIs(h, 1);
    assert h[LAST_POSITIVE - 1] == 1 && h[LAST_POSITIVE] == 2;
    assert LastUse(h, 1) == LAST_POSITIVE;
  }

  /** On this run request 2^31 replaces the character that was asked for just before it. */
  lemma LongRunForgets<B(!new)>(render: nat -> B, blank: B)
    ensures Run(render, blank, LongRun(), LongStates(render, blank), LongAnswers(render)) && |LongRun()| == 0x8000_0000
    ensures !Cached(LongStates(render, blank)[|LongRun()|].entries, 1)
    ensures 1 in LongRun() && |Since(LongRun(), 1)| == 1
  {
    LongRunIsRun(render, blank);
    LongRunSince();
  }

  /**
   The bound is exact: the cache is least-recently-used in all runs of fewer than `limit` requests iff that is
   2^31 or less.
  */
  lemma ExactIff<B(!new)>(render: nat -> B, blank: B, limit: nat)
    ensures ExactFor(render, blank, limit) <==> limit <= 0x8000_0000
  {
    if limit <= 0x8000_0000 {
      forall h: seq<nat>, states: seq<State<B>>, bitmaps: seq<B>, c: nat
        | Run(render, blank, h, states, bitmaps) && 0 !in h && |h| < limit && c != 0
        ensures Cached(states[|h|].entries, c) <==> c in h && |Since(h, c)| < SIZE
      {
        HitIffRecent(render, blank, h, states, bitmaps, |h|, c);
        assert h[..|h|] == h;
      }
    } else {
      LongRunForgets(render, blank);
      LongRunSince();
    }
  }
}
