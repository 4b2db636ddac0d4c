/**
 The heap's headers and their links: which store of headers is the list of a given sequence of blocks, and how it
 changes when a header is added, removed or rewritten.
 */
module HeapList {
  import opened Pages
  import opened HeapSpec

  // heap_entry. A null link is 0.
  datatype Header = Header(size: nat, used: bool, last: nat, next: nat)

  type Headers = map<nat, Header>

  // The header of the i-th block.
  function HeaderOf(bs: seq<Block>, i: nat): Header
    requires i < |bs|
  {
    Header(bs[i].size, bs[i].used, if i > 0 then bs[i - 1].addr else 0, if i + 1 < |bs| then bs[i + 1].addr else 0)
  }

  // The i-th block's header is where the block is.
  predicate AtHome(hdr: Headers, bs: seq<Block>, i: nat)
    requires i < |bs|
  {
    bs[i].addr in hdr && hdr[bs[i].addr] == HeaderOf(bs, i)
  }

  ghost predicate Chained(hdr: Headers, bs: seq<Block>) {
    forall i {:trigger AtHome(hdr, bs, i)} | 0 <= i < |bs| :: AtHome(hdr, bs, i)
  }

  // Headers do not overlap, and lie in list order.
  ghost predicate Spaced(bs: seq<Block>) {
    forall i, j | 0 <= i < j < |bs| :: bs[i].addr + HEADER <= bs[j].addr
  }

  // Writing a header destroys the headers it overlaps.
  function PutHeader(hdr: Headers, a: nat, h: Header): Headers {
    (map b | b in hdr && (b + HEADER <= a || a + HEADER <= b) :: hdr[b])[a := h]
  }

  // Writing a byte destroys a header that lies over it.
  function Overwritten(hdr: Headers, x: nat): Headers {
    map b | b in hdr && !(b <= x < b + HEADER) :: hdr[b]
  }

  // What the split of kmalloc leaves of a last block `i` when it puts the new header over the block's own: a header
  // that is its own successor, free and of nearly 2^64 bytes, or two headers that destroy each other.
  ghost predicate Undercut(hdr: Headers, last: nat, bs: seq<Block>, i: nat, size: nat)
    requires i < |bs|
  {
    && (forall k {:trigger AtHome(hdr, bs, k)} | 0 <= k < i :: AtHome(hdr, bs, k))
    && last == (Payload(bs[i]) + size) % WORD
    && if size == WORD - HEADER then last == bs[i].addr && last in hdr && hdr[last] == Header(size, false, last, last)
       else last == bs[i].addr + UNIT && last !in hdr && bs[i].addr !in hdr
  }

  lemma SplitUndercut(hdr: Headers, bs: seq<Block>, i: nat, size: nat, n: nat, h: Header)
    requires InList(hdr, bs) && i == |bs| - 1 && size in {WORD - HEADER, WORD - UNIT}
    requires n == Payload(bs[i]) + size - WORD && n == (Payload(bs[i]) + size) % WORD
    requires !h.used && h.last == bs[i].addr
    ensures var put := PutHeader(hdr, n, h);
            && n in put && put[n] == h
            && (n == bs[i].addr ==> Undercut(put[n := h.(size := size, next := n)], n, bs, i, size))
            && (n != bs[i].addr ==> Undercut(put - {n}, n, bs, i, size))
  {
    forall k | 0 <= k < i ensures AtHome(PutHeader(hdr, n, h), bs, k) && bs[k].addr < bs[i].addr {
      ListedAt(hdr, bs, k);
    }
  }

  /** Then the headers are no list of blocks that ends at the last one. */
  lemma UndercutIsNoList(hdr: Headers, last: nat, bs: seq<Block>, i: nat, size: nat, bs': seq<Block>)
    requires i < |bs| && Undercut(hdr, last, bs, i, size) && 0 < bs[i].addr
    requires bs' != [] && bs'[|bs'| - 1].addr == last
    ensures !Chained(hdr, bs')
  {
    assert Chained(hdr, bs') ==> AtHome(hdr, bs', |bs'| - 1);
  }

  // ----- the list after each change of links -----

  ghost predicate InList(hdr: Headers, bs: seq<Block>) { Spaced(bs) && Chained(hdr, bs) && bs != [] && 0 < bs[0].addr }

  lemma ListedAt(hdr: Headers, bs: seq<Block>, k: nat)
    requires Chained(hdr, bs) && k < |bs|
    ensures AtHome(hdr, bs, k)
  {}

  lemma Positive(bs: seq<Block>, k: nat)
    requires Spaced(bs) && bs != [] && 0 < bs[0].addr && k < |bs|
    ensures 0 < bs[k].addr
  {}

  // A link is null exactly at the end of the list.
  lemma LinksNull(hdr: Headers, bs: seq<Block>, k: nat)
    requires InList(hdr, bs) && k < |bs|
    ensures AtHome(hdr, bs, k)
    ensures hdr[bs[k].addr].next == 0 <==> k == |bs| - 1
    ensures hdr[bs[k].addr].last == 0 <==> k == 0
  {
    assert AtHome(hdr, bs, k);
    assert k > 0 ==> bs[k - 1].addr > 0;
  }

  lemma DropChained(hdr: Headers, bs: seq<Block>)
    requires InList(hdr, bs) && |bs| > 1
    ensures var n := |bs| - 1;
            var e, h := bs[n - 1].addr, HeaderOf(bs, n - 1);
            InList(hdr[e := h.(next := 0)], bs[..n])
  {
    var n := |bs| - 1;
    var hdr' := hdr[bs[n - 1].addr := HeaderOf(bs, n - 1).(next := 0)];
    forall i | 0 <= i < n ensures AtHome(hdr', bs[..n], i) {
      assert AtHome(hdr, bs, i);
    }
  }

  lemma SetChained(hdr: Headers, bs: seq<Block>, k: nat, size: nat, used: bool)
    requires InList(hdr, bs) && k < |bs|
    ensures var h := HeaderOf(bs, k);
            bs[k].addr in hdr && hdr[bs[k].addr] == h
            && InList(hdr[bs[k].addr := h.(size := size, used := used)], bs[k := bs[k].(size := size, used := used)])
  {
    var bs' := bs[k := bs[k].(size := size, used := used)];
    assert AtHome(hdr, bs, k);
    var hdr' := hdr[bs[k].addr := HeaderOf(bs, k).(size := size, used := used)];
    forall i | 0 <= i < |bs'| ensures AtHome(hdr', bs', i) {
      assert AtHome(hdr, bs, i);
    }
  }

  // `h` with the link to its predecessor set, if there is such a header.
  function SetLast(hdr: Headers, a: nat, last: nat): Headers
    requires a != 0 ==> a in hdr
  {
    if a != 0 then hdr[a := hdr[a].(last := last)] else hdr
  }

  lemma SkipSpaced(bs: seq<Block>, k: nat)
    requires Spaced(bs) && k + 1 < |bs|
    ensures Spaced(bs[..k + 1] + bs[k + 2..])
  {
    var bs' := bs[..k + 1] + bs[k + 2..];
    assert forall i | 0 <= i < |bs'| :: bs'[i] == bs[if i <= k then i else i + 1];
  }

  lemma SkipChained(hdr: Headers, bs: seq<Block>, k: nat)
    requires InList(hdr, bs) && k + 1 < |bs|
    ensures var e, next := bs[k].addr, HeaderOf(bs, k + 1).next;
            && e in hdr && (next != 0 ==> next in hdr && next != e)
            && InList(SetLast(hdr[e := hdr[e].(next := next)], next, e), bs[..k + 1] + bs[k + 2..])
  {
    var bs' := bs[..k + 1] + bs[k + 2..];
    var e, next := bs[k].addr, HeaderOf(bs, k + 1).next;
    SkipSpaced(bs, k);
    hide Spaced;
    ListedAt(hdr, bs, k);
    if k + 2 < |bs| {
      ListedAt(hdr, bs, k + 2);
      Elsewhere(bs, k + 2, k);
    }
    var hdr' := SetLast(hdr[e := hdr[e].(next := next)], next, e);
    forall i | 0 <= i < |bs'| ensures AtHome(hdr', bs', i) {
      SkipLink(hdr, bs, k, i);
    }
  }

  lemma SkipLink(hdr: Headers, bs: seq<Block>, k: nat, i: nat)
    requires InList(hdr, bs) && k + 1 < |bs| && i + 1 < |bs|
    requires var e, next := bs[k].addr, HeaderOf(bs, k + 1).next; e in hdr && (next != 0 ==> next in hdr && next != e)
    ensures var e, next := bs[k].addr, HeaderOf(bs, k + 1).next;
            AtHome(SetLast(hdr[e := hdr[e].(next := next)], next, e), bs[..k + 1] + bs[k + 2..], i)
  {
    hide Spaced;
    var bs' := bs[..k + 1] + bs[k + 2..];
    var j := if i <= k then i else i + 1;
    ListedAt(hdr, bs, j);
    assert bs'[i] == bs[j];
    assert i + 1 < |bs'| ==> bs'[i + 1] == bs[if i + 1 <= k then i + 1 else i + 2];
    assert i > 0 ==> bs'[i - 1] == bs[if i - 1 <= k then i - 1 else i];
    if j != k { Elsewhere(bs, j, k); }
    if k + 2 < |bs| {
      Elsewhere(bs, k + 2, k);
      if j != k + 2 { Elsewhere(bs, j, k + 2); }
    }
  }

  // A new header keeps the old ones it does not overlap.
  lemma PutKeeps(hdr: Headers, bs: seq<Block>, a: nat, h: Header)
    requires Chained(hdr, bs) && forall i | 0 <= i < |bs| :: bs[i].addr + HEADER <= a || a + HEADER <= bs[i].addr
    ensures Chained(PutHeader(hdr, a, h), bs)
  {
    forall i | 0 <= i < |bs| ensures AtHome(PutHeader(hdr, a, h), bs, i) {
      assert AtHome(hdr, bs, i);
    }
  }

  lemma SplitSpaced(bs: seq<Block>, k: nat, size: nat)
    requires Spaced(bs) && k < |bs| && size + HEADER <= bs[k].size
    requires k + 1 < |bs| ==> End(bs[k]) <= bs[k + 1].addr
    ensures var n := bs[k].addr + HEADER + size;
            && Spaced(SplitAt(bs, k, size))
            && (forall i | 0 <= i < |bs| :: bs[i].addr + HEADER <= n || n + HEADER <= bs[i].addr)
  {
    var bs' := SplitAt(bs, k, size);
    var n := bs[k].addr + HEADER + size;
    assert bs'[k].addr == bs[k].addr && bs'[k + 1].addr == n;
    assert forall i | 0 <= i < |bs'| && i != k && i != k + 1 :: bs'[i] == bs[if i <= k then i else i - 1];
    forall i | k < i < |bs| ensures n + HEADER <= bs[i].addr {
      assert bs[k + 1].addr <= bs[i].addr;
    }
  }

  lemma SplitChained(hdr: Headers, bs: seq<Block>, k: nat, size: nat)
    requires InList(hdr, bs) && k < |bs| && size + HEADER <= bs[k].size
    requires k + 1 < |bs| ==> End(bs[k]) <= bs[k + 1].addr
    ensures var e, h := bs[k].addr, HeaderOf(bs, k);
            var n := e + HEADER + size;
            var hdr1 := PutHeader(hdr, n, Header(h.size - (size + HEADER), false, e, h.next));
            && AtHome(hdr, bs, k) && (h.next != 0 ==> h.next in hdr1 && h.next != e)
            && InList(SplitHeaders(hdr1, e, h, size), SplitAt(bs, k, size))
  {
    var e, h := bs[k].addr, HeaderOf(bs, k);
    var n := e + HEADER + size;
    var header := Header(h.size - (size + HEADER), false, e, h.next);
    assert AtHome(hdr, bs, k);
    SplitSpaced(bs, k, size);
    PutKeeps(hdr, bs, n, header);
    SplitLinks(PutHeader(hdr, n, header), bs, k, size);
  }

  // The headers after a cut, the new one already being in place.
  function SplitHeaders(hdr: Headers, e: nat, h: Header, size: nat): Headers
    requires h.next != 0 ==> h.next in hdr
  {
    var n := e + HEADER + size;
    SetLast(hdr[e := h.(size := size)], h.next, n)[e := h.(size := size, next := n)]
  }

  lemma Elsewhere(bs: seq<Block>, i: nat, j: nat)
    requires Spaced(bs) && i < |bs| && j < |bs| && i != j && 0 < bs[0].addr
    ensures bs[i].addr != bs[j].addr && 0 < bs[i].addr
  {}

  lemma SplitLinks(hdr: Headers, bs: seq<Block>, k: nat, size: nat)
    requires InList(hdr, bs) && k < |bs| && size + HEADER <= bs[k].size && Spaced(SplitAt(bs, k, size))
    requires var n := bs[k].addr + HEADER + size;
             n in hdr && hdr[n] == Header(bs[k].size - (size + HEADER), false, bs[k].addr, HeaderOf(bs, k).next)
    ensures var e, h := bs[k].addr, HeaderOf(bs, k);
            && (h.next != 0 ==> h.next in hdr && h.next != e)
            && InList(SplitHeaders(hdr, e, h, size), SplitAt(bs, k, size))
  {
    hide Spaced;
    var e, h := bs[k].addr, HeaderOf(bs, k);
    var bs' := SplitAt(bs, k, size);
    if k + 1 < |bs| {
      assert AtHome(hdr, bs, k + 1);
      Elsewhere(bs, k, k + 1);
      assert h.next == bs[k + 1].addr;
    }
    var hdr' := SplitHeaders(hdr, e, h, size);
    forall i | 0 <= i < |bs'| ensures AtHome(hdr', bs', i) {
      SplitLink(hdr, bs, k, size, i);
    }
    assert bs'[0].addr == bs[0].addr;
  }

  lemma SplitLink(hdr: Headers, bs: seq<Block>, k: nat, size: nat, i: nat)
    requires InList(hdr, bs) && k < |bs| && size + HEADER <= bs[k].size && Spaced(SplitAt(bs, k, size)) && i <= |bs|
    requires var n := bs[k].addr + HEADER + size;
             n in hdr && hdr[n] == Header(bs[k].size - (size + HEADER), false, bs[k].addr, HeaderOf(bs, k).next)
    requires var h := HeaderOf(bs, k); h.next != 0 ==> h.next in hdr
    ensures AtHome(SplitHeaders(hdr, bs[k].addr, HeaderOf(bs, k), size), SplitAt(bs, k, size), i)
  {
    hide Spaced;
    var bs' := SplitAt(bs, k, size);
    if i == k + 1 {
      Elsewhere(bs', k + 1, k);
      if k + 2 < |bs'| { Elsewhere(bs', k + 1, k + 2); }
    } else if i != k {
      var j := if i < k then i else i - 1;
      assert bs'[i] == bs[j] && AtHome(hdr, bs, j);
      assert i + 1 < |bs'| ==> bs'[i + 1].addr == bs[j + 1].addr;
      assert i > 0 && i != k + 2 ==> bs'[i - 1].addr == bs[j - 1].addr;
      Elsewhere(bs, j, k);
      if k + 1 < |bs| {
        Elsewhere(bs, k + 1, k);
        if j != k + 1 { Elsewhere(bs, j, k + 1); }
      }
    }
  }

  lemma AppendChained(hdr: Headers, bs: seq<Block>, end: nat, pages: nat)
    requires InList(hdr, bs) && pages > 0 && End(bs[|bs| - 1]) == end
    ensures var e, h := bs[|bs| - 1].addr, HeaderOf(bs, |bs| - 1);
            var hdr1 := PutHeader(hdr, end, Header(PAGE * pages - HEADER, false, e, 0));
            && e in hdr1 && hdr1[e] == h
            && InList(hdr1[e := h.(next := end)], Grown(bs, end, pages))
  {
    var e, h := bs[|bs| - 1].addr, HeaderOf(bs, |bs| - 1);
    var header := Header(PAGE * pages - HEADER, false, e, 0);
    forall i | 0 <= i < |bs| ensures bs[i].addr + HEADER <= end {
      assert bs[i].addr <= e;
    }
    PutKeeps(hdr, bs, end, header);
    AppendLinks(PutHeader(hdr, end, header), bs, end, pages);
  }

  lemma AppendLinks(hdr: Headers, bs: seq<Block>, end: nat, pages: nat)
    requires InList(hdr, bs) && pages > 0 && forall i | 0 <= i < |bs| :: bs[i].addr + HEADER <= end
    requires end in hdr && hdr[end] == Header(PAGE * pages - HEADER, false, bs[|bs| - 1].addr, 0)
    ensures var e, h := bs[|bs| - 1].addr, HeaderOf(bs, |bs| - 1);
            e in hdr && hdr[e] == h && InList(hdr[e := h.(next := end)], Grown(bs, end, pages))
  {
    var e, h := bs[|bs| - 1].addr, HeaderOf(bs, |bs| - 1);
    var bs' := Grown(bs, end, pages);
    assert AtHome(hdr, bs, |bs| - 1);
    var hdr' := hdr[e := h.(next := end)];
    assert bs'[|bs|].addr == end;
    forall i | 0 <= i < |bs'| ensures AtHome(hdr', bs', i) {
      if i < |bs| - 1 {
        assert AtHome(hdr, bs, i) && bs'[i] == bs[i] && bs'[i + 1] == bs[i + 1];
      }
    }
  }

  lemma ShiftSpaced(bs: seq<Block>, i: nat, size: nat)
    requires Spaced(bs) && i + 1 < |bs| && size < bs[i].size && End(bs[i]) == bs[i + 1].addr
    ensures var n := bs[i].addr + HEADER + size;
            && Spaced(ShiftNext(bs, i, size))
            && (forall k | 0 <= k < |bs| && k != i + 1 :: bs[k].addr + HEADER <= n || n + HEADER <= bs[k].addr)
  {
    var bs' := ShiftNext(bs, i, size);
    var n := bs[i].addr + HEADER + size;
    forall k | 0 <= k < |bs| && k != i + 1
      ensures if k <= i then bs[k].addr + HEADER <= n else n + HEADER <= bs[k].addr
    {
      if k > i { assert bs[i + 1].addr + HEADER <= bs[k].addr; }
      else if k < i { assert bs[k].addr + HEADER <= bs[i].addr; }
    }
    assert bs'[i + 1].addr == n;
  }

  // The headers after block i + 1 has moved down to `n`, where its header already is.
  function ShiftHeaders(hdr: Headers, e: nat, n: nat, h: Header, moved: Header): Headers
    requires moved.next != 0 ==> moved.next in hdr
  {
    SetLast(hdr[e := h.(next := n)][n := moved], moved.next, n)
  }

  ghost predicate ChainedBut(hdr: Headers, bs: seq<Block>, j: nat) {
    forall k {:trigger AtHome(hdr, bs, k)} | 0 <= k < |bs| && k != j :: AtHome(hdr, bs, k)
  }

  // The moved header keeps those of all other blocks.
  lemma ShiftPut(hdr: Headers, bs: seq<Block>, i: nat, size: nat, h: Header)
    requires InList(hdr, bs) && i + 1 < |bs| && size < bs[i].size && End(bs[i]) == bs[i + 1].addr
    ensures var n := bs[i].addr + HEADER + size;
            && Spaced(ShiftNext(bs, i, size))
            && ChainedBut(PutHeader(hdr, n, h), bs, i + 1)
            && forall k | 0 <= k < |bs| && k != i + 1 :: bs[k].addr != n
  {
    ShiftSpaced(bs, i, size);
    var hdr' := PutHeader(hdr, bs[i].addr + HEADER + size, h);
    forall k | 0 <= k < |bs| && k != i + 1 ensures AtHome(hdr', bs, k) {
      ListedAt(hdr, bs, k);
    }
  }

  lemma ShiftChained(hdr: Headers, bs: seq<Block>, i: nat, size: nat)
    requires InList(hdr, bs) && i + 1 < |bs| && !bs[i + 1].used && size < bs[i].size && End(bs[i]) == bs[i + 1].addr
    ensures AtHome(hdr, bs, i) && AtHome(hdr, bs, i + 1)
    ensures var e, h, h' := bs[i].addr, HeaderOf(bs, i), HeaderOf(bs, i + 1);
            var n := e + HEADER + size;
            var hdr1 := PutHeader(hdr, n, h');
            && e in hdr1 && hdr1[e] == h && n in hdr1 && hdr1[n] == h' && e != n
            && (h'.next != 0 ==> h'.next in hdr1 && h'.next != e && h'.next != n)
            && InList(ShiftHeaders(hdr1, e, n, h, h'.(size := h'.size + (h.size - size))), ShiftNext(bs, i, size))
  {
    hide Spaced;
    var e, h, h' := bs[i].addr, HeaderOf(bs, i), HeaderOf(bs, i + 1);
    var n := e + HEADER + size;
    var hdr1 := PutHeader(hdr, n, h');
    var bs' := ShiftNext(bs, i, size);
    ShiftPut(hdr, bs, i, size, h');
    ListedAt(hdr, bs, i);
    ListedAt(hdr, bs, i + 1);
    if i + 2 < |bs| {
      assert AtHome(hdr1, bs, i + 2);
      Elsewhere(bs, i + 2, i);
    }
    assert AtHome(hdr1, bs, i);
    var hdr' := ShiftHeaders(hdr1, e, n, h, h'.(size := h'.size + (h.size - size)));
    forall k | 0 <= k < |bs'| ensures AtHome(hdr', bs', k) {
      ShiftLink(hdr1, bs, i, size, k);
    }
    assert bs'[0].addr == bs[0].addr;
  }

  lemma ShiftLink(hdr: Headers, bs: seq<Block>, i: nat, size: nat, k: nat)
    requires Spaced(bs) && i + 1 < |bs| && k < |bs| && 0 < bs[0].addr && size < bs[i].size && !bs[i + 1].used
    requires k != i + 1 ==> AtHome(hdr, bs, k) && bs[k].addr != bs[i].addr + HEADER + size
    requires var h' := HeaderOf(bs, i + 1); h'.next != 0 ==> h'.next in hdr && AtHome(hdr, bs, i + 2)
    requires Spaced(ShiftNext(bs, i, size))
    ensures var e, h, h' := bs[i].addr, HeaderOf(bs, i), HeaderOf(bs, i + 1);
            AtHome(ShiftHeaders(hdr, e, e + HEADER + size, h, h'.(size := h'.size + (h.size - size))),
              ShiftNext(bs, i, size), k)
  {
    hide Spaced;
    if i + 2 < |bs| {
      Elsewhere(bs, i + 2, i);
      Elsewhere(ShiftNext(bs, i, size), i + 1, i + 2);
      if k != i + 2 { Elsewhere(bs, k, i + 2); }
    }
    if k != i { Elsewhere(bs, k, i); }
    Elsewhere(ShiftNext(bs, i, size), i, i + 1);
  }
}
