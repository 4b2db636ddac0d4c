/**
 qsort. Elements are `size` bytes, but the routine computes addresses from indices without scaling them by the
 size. The functions say byte by byte what it does for any size; then it is proved for which it sorts.
 */
module Qsort {
  import opened Facts

  type Bytes = seq<bv8>
  type Comparator = (Bytes, Bytes) -> int

  function Compare(m: Bytes, p: nat, q: nat, size: nat, comp: Comparator): int
    requires p + size <= |m| && q + size <= |m|
  {
    comp(m[p..p + size], m[q..q + size])
  }

  // memswap: bytes are exchanged one at a time, so overlapping regions are not simply swapped.
  function Swapped(m: Bytes, p: nat, q: nat, n: nat): (r: Bytes)
    requires p + n <= |m| && q + n <= |m|
    ensures |r| == |m|
  {
    if n == 0 then m else Exchanged(Swapped(m, p, q, n - 1), p + n - 1, q + n - 1)
  }

  function Exchanged(m: Bytes, p: nat, q: nat): (r: Bytes)
    requires p < |m| && q < |m|
    ensures |r| == |m|
  {
    m[p := m[q]][q := m[p]]
  }

  datatype Cut = Cut(m: Bytes, i: nat, j: nat)

  // The loop of partition. The pivot is at `lo`.
  function Scanned(m: Bytes, lo: nat, i: nat, j: nat, size: nat, comp: Comparator): (c: Cut)
    requires lo + i + size <= |m| && lo + j + size <= |m| && 0 < i <= j + 1
    ensures |c.m| == |m| && i <= c.i <= c.j + 1 && c.j <= j && c.i >= c.j && c.i <= (if i <= j then j else i)
    decreases j + 1 - i
  {
    if i >= j then Cut(m, i, j)
    else if Compare(m, lo + i, lo, size, comp) <= 0 then Scanned(m, lo, i + 1, j, size, comp)
    else if Compare(m, lo + j, lo, size, comp) > 0 then Scanned(m, lo, i, j - 1, size, comp)
    else Scanned(Swapped(m, lo + i, lo + j, size), lo, i + 1, j - 1, size, comp)
  }

  // partition: the memory, and where the pivot ends up.
  function Partitioned(m: Bytes, lo: nat, count: nat, size: nat, comp: Comparator, piv: nat): (r: (Bytes, nat))
    requires count >= 3 && lo + count - 1 + size <= |m| && lo + piv + size <= |m|
    ensures |r.0| == |m| && r.1 < count
  {
    var c := Scanned(Swapped(m, lo, lo + piv, size), lo, 1, count - 1, size, comp);
    if c.i > 1 then
      if Compare(c.m, lo + c.i, lo, size, comp) > 0 then (Swapped(c.m, lo, lo + c.i - 1, size), c.i - 1)
      else (Swapped(c.m, lo, lo + c.i, size), c.i)
    else (c.m, 0)
  }

  // How far from its start a call reads and writes.
  function Reach(count: nat, size: nat): nat {
    if count < 2 then 0 else if count == 2 then 1 + size
    else (if size / 2 > 2 then count - 3 + size / 2 else count - 1) + size
  }

  function Sorted(m: Bytes, lo: nat, count: nat, size: nat, comp: Comparator): (r: Bytes)
    requires 0 < size && lo + Reach(count, size) <= |m|
    ensures |r| == |m|
    decreases count
  {
    if count < 2 then m
    else if count == 2 then
      if Compare(m, lo + 1, lo, size, comp) < 0 then Swapped(m, lo, lo + 1, size) else m
    else
      var (m1, piv) := Partitioned(m, lo, count, size, comp, size / 2);
      var m2 := Sorted(m1, lo, piv, size, comp);
      Sorted(m2, lo + piv + 1, count - piv - 1, size, comp)
  }

  // ----- the routines -----

  method Memswap(mem: array<bv8>, p: nat, q: nat, n: nat)
    requires p + n <= mem.Length && q + n <= mem.Length
    modifies mem
    ensures mem[..] == Swapped(old(mem[..]), p, q, n)
  {
    for i := 0 to n
      invariant mem[..] == Swapped(old(mem[..]), p, q, i)
    {
      var tmp := mem[p + i];
      mem[p + i] := mem[q + i];
      mem[q + i] := tmp;
    }
  }

  method Partition(mem: array<bv8>, lo: nat, count: nat, size: nat, comp: Comparator, pivIndex: nat) returns (piv: nat)
    requires count >= 3 && lo + count - 1 + size <= mem.Length && lo + pivIndex + size <= mem.Length
    modifies mem
    ensures (mem[..], piv) == Partitioned(old(mem[..]), lo, count, size, comp, pivIndex)
  {
    hide Swapped, Compare;
    Memswap(mem, lo, lo + pivIndex, size);
    ghost var start := mem[..];
    var i, j := 1, count - 1;
    while i < j
      invariant 0 < i <= j + 1 && i < count && j < count
      invariant Scanned(mem[..], lo, i, j, size, comp) == Scanned(start, lo, 1, count - 1, size, comp)
      decreases j + 1 - i
    {
      var order := CompareAt(mem, lo + i, lo, size, comp);
      if order <= 0 {
        i := i + 1;
        continue;
      }
      order := CompareAt(mem, lo + j, lo, size, comp);
      if order > 0 {
        j := j - 1;
        continue;
      }
      Memswap(mem, lo + i, lo + j, size);
      i := i + 1;
      j := j - 1;
    }
    assert Scanned(start, lo, 1, count - 1, size, comp) == Cut(mem[..], i, j);
    if i > 1 {
      var order := CompareAt(mem, lo + i, lo, size, comp);
      if order > 0 {
        Memswap(mem, lo, lo + i - 1, size);
        return i - 1;
      } else {
        Memswap(mem, lo, lo + i, size);
        return i;
      }
    }
    piv := 0;
  }

  method CompareAt(mem: array<bv8>, p: nat, q: nat, size: nat, comp: Comparator) returns (order: int)
    requires p + size <= mem.Length && q + size <= mem.Length
    ensures order == Compare(mem[..], p, q, size, comp)
  {
    assert mem[p..p + size] == mem[..][p..p + size] && mem[q..q + size] == mem[..][q..q + size];
    order := comp(mem[p..p + size], mem[q..q + size]);
  }

  // A call on `count` elements from address `lo` on; all parts of the array are sorted by such calls.
  method QsortFrom(mem: array<bv8>, lo: nat, count: nat, size: nat, comp: Comparator)
    requires 0 < size && lo + Reach(count, size) <= mem.Length
    modifies mem
    ensures mem[..] == Sorted(old(mem[..]), lo, count, size, comp)
    decreases count
  {
    hide Swapped, Compare, Partitioned, Scanned;
    if count <= 2 {
      if count < 2 {
        return;
      }
      var order := CompareAt(mem, lo + 1, lo, size, comp);
      if order < 0 {
        Memswap(mem, lo, lo + 1, size);
      }
      return;
    }
    var piv := size / 2;
    piv := Partition(mem, lo, count, size, comp, piv);
    ReachOfParts(count, size, piv);
    QsortFrom(mem, lo, piv, size, comp);
    QsortFrom(mem, lo + piv + 1, count - piv - 1, size, comp);
  }

  lemma ReachOfParts(count: nat, size: nat, piv: nat)
    requires count >= 3 && size > 0 && piv < count
    ensures Reach(piv, size) <= Reach(count, size) && piv + 1 + Reach(count - piv - 1, size) <= Reach(count, size)
  {}

  /** qsort on an array of `count` elements at `lo`: it stays inside the array, whatever the size. */
  method Qsort(mem: array<bv8>, lo: nat, count: nat, size: nat, comp: Comparator)
    requires 0 < size && lo + count * size <= mem.Length
    modifies mem
    ensures Reach(count, size) <= count * size && mem[..] == Sorted(old(mem[..]), lo, count, size, comp)
    ensures forall k | 0 <= k < mem.Length && !(lo <= k < lo + count * size) :: mem[k] == old(mem[k])
    ensures Perm(old(mem[..]), mem[..], lo, lo + count * size)
  {
    hide Perm, Sorted, Reach;
    ReachInside(count, size);
    ghost var was, end := mem[..], lo + count * size;
    SortedPermOf(was, lo, count, size, comp, lo, end);
    OutsideKept(was, Sorted(was, lo, count, size, comp), lo, end);
    QsortFrom(mem, lo, count, size, comp);
  }

  // Bytes lo..hi are rearranged; the others are as before.
  ghost predicate Perm(m: Bytes, m': Bytes, lo: nat, hi: nat) {
    && |m| == |m'| && lo <= hi <= |m| && multiset(m'[lo..hi]) == multiset(m[lo..hi])
    && m'[..lo] == m[..lo] && m'[hi..] == m[hi..]
  }

  lemma PermWider(m: Bytes, m': Bytes, lo: nat, hi: nat, lo': nat, hi': nat)
    requires Perm(m, m', lo, hi) && lo' <= lo && hi <= hi' <= |m|
    ensures Perm(m, m', lo', hi')
  {
    InThree(m, lo', lo, hi, hi');
    InThree(m', lo', lo, hi, hi');
    assert m[..lo'] == m[..lo][..lo'] && m'[..lo'] == m'[..lo][..lo'];
    assert m[hi'..] == m[hi..][hi' - hi..] && m'[hi'..] == m'[hi..][hi' - hi..];
  }

  lemma InThree(m: Bytes, lo': nat, lo: nat, hi: nat, hi': nat)
    requires lo' <= lo <= hi <= hi' <= |m|
    ensures m[lo'..hi'] == m[..lo][lo'..] + m[lo..hi] + m[hi..][..hi' - hi]
  {
    assert m[..lo][lo'..] == m[lo'..lo] && m[hi..][..hi' - hi] == m[hi..hi'];
    assert m[lo'..hi'] == m[lo'..lo] + m[lo..hi] + m[hi..hi'];
  }

  lemma PermSame(m: Bytes, lo: nat, hi: nat)
    requires lo <= hi <= |m|
    ensures Perm(m, m, lo, hi)
  {}

  lemma PermTwice(m: Bytes, m': Bytes, m'': Bytes, lo: nat, hi: nat)
    requires Perm(m, m', lo, hi) && Perm(m', m'', lo, hi)
    ensures Perm(m, m'', lo, hi)
  {}

  /** On regions that do not overlap this exchanges them, and changes nothing else. */
  lemma {:induction false} SwapsApart(m: Bytes, p: nat, q: nat, n: nat)
    requires p + n <= |m| && q + n <= |m| && (p + n <= q || q + n <= p)
    ensures var r := Swapped(m, p, q, n);
            && (forall x | p <= x < p + n :: r[x] == m[q + (x - p)])
            && (forall x | q <= x < q + n :: r[x] == m[p + (x - q)])
            && (forall x | 0 <= x < |m| && !(p <= x < p + n) && !(q <= x < q + n) :: r[x] == m[x])
  {
    if n > 0 {
      SwapsApart(m, p, q, n - 1);
      var r, a, b := Swapped(m, p, q, n - 1), p + n - 1, q + n - 1;
      assert r[a] == m[a] && r[b] == m[b];
      assert Swapped(m, p, q, n) == Exchanged(r, a, b);
    }
  }

  // Any two bytes may be exchanged.
  lemma BytesExchanged(m: Bytes, p: nat, q: nat, a: nat, b: nat)
    requires a <= p < b <= |m| && a <= q < b
    ensures Perm(m, Exchanged(m, p, q), a, b)
  {
    var m', s := Exchanged(m, p, q), m[a..b];
    assert m'[a..b] == s[p - a := s[q - a]][q - a := s[p - a]];
  }

  lemma {:induction false} SwappedPerm(m: Bytes, p: nat, q: nat, n: nat, a: nat, b: nat)
    requires a <= p && p + n <= b && a <= q && q + n <= b <= |m|
    ensures Perm(m, Swapped(m, p, q, n), a, b)
  {
    hide Perm, Exchanged;
    if n == 0 {
      PermSame(m, a, b);
    } else {
      var r := Swapped(m, p, q, n - 1);
      SwappedPerm(m, p, q, n - 1, a, b);
      BytesExchanged(r, p + n - 1, q + n - 1, a, b);
      PermTwice(m, r, Swapped(m, p, q, n), a, b);
    }
  }

  lemma {:induction false} ScannedPerm(m: Bytes, lo: nat, i: nat, j: nat, size: nat, comp: Comparator, a: nat, b: nat)
    requires a <= lo && lo + i + size <= b && lo + j + size <= b <= |m| && 0 < i <= j + 1
    ensures Perm(m, Scanned(m, lo, i, j, size, comp).m, a, b)
    decreases j + 1 - i
  {
    hide Perm, Swapped, Compare;
    if i >= j {
      PermSame(m, a, b);
    } else {
      if Compare(m, lo + i, lo, size, comp) <= 0 {
        ScannedPerm(m, lo, i + 1, j, size, comp, a, b);
      } else if Compare(m, lo + j, lo, size, comp) > 0 {
        ScannedPerm(m, lo, i, j - 1, size, comp, a, b);
      } else {
        var m' := Swapped(m, lo + i, lo + j, size);
        SwappedPerm(m, lo + i, lo + j, size, a, b);
        ScannedPerm(m', lo, i + 1, j - 1, size, comp, a, b);
        PermTwice(m, m', Scanned(m', lo, i + 1, j - 1, size, comp).m, a, b);
      }
    }
  }

  lemma PartitionedPerm(m: Bytes, lo: nat, count: nat, size: nat, comp: Comparator, piv: nat, a: nat, b: nat)
    requires count >= 3 && a <= lo && lo + count - 1 + size <= b && lo + piv + size <= b <= |m|
    ensures Perm(m, Partitioned(m, lo, count, size, comp, piv).0, a, b)
  {
    hide Perm, Swapped, Compare, Scanned;
    var m1 := Swapped(m, lo, lo + piv, size);
    var c := Scanned(m1, lo, 1, count - 1, size, comp);
    SwappedPerm(m, lo, lo + piv, size, a, b);
    ScannedPerm(m1, lo, 1, count - 1, size, comp, a, b);
    PermTwice(m, m1, c.m, a, b);
    if c.i > 1 {
      var v := if Compare(c.m, lo + c.i, lo, size, comp) > 0 then c.i - 1 else c.i;
      SwappedPerm(c.m, lo, lo + v, size, a, b);
      PermTwice(m, c.m, Swapped(c.m, lo, lo + v, size), a, b);
    }
  }

  lemma {:induction false} SortedPermOf(m: Bytes, lo: nat, count: nat, size: nat, comp: Comparator, a: nat, b: nat)
    requires 0 < size && a <= lo && lo + Reach(count, size) <= b <= |m|
    ensures Perm(m, Sorted(m, lo, count, size, comp), a, b)
    decreases count
  {
    hide Perm, Swapped, Compare, Partitioned;
    PermSame(m, a, b);
    if count == 2 {
      SwappedPerm(m, lo, lo + 1, size, a, b);
    } else if count > 2 {
      var (m1, v) := Partitioned(m, lo, count, size, comp, size / 2);
      var m2 := Sorted(m1, lo, v, size, comp);
      ReachOfParts(count, size, v);
      PartitionedPerm(m, lo, count, size, comp, size / 2, a, b);
      SortedPermOf(m1, lo, v, size, comp, a, b);
      SortedPermOf(m2, lo + v + 1, count - v - 1, size, comp, a, b);
      PermTwice(m, m1, m2, a, b);
      PermTwice(m, m2, Sorted(m2, lo + v + 1, count - v - 1, size, comp), a, b);
    }
  }

  /** For any size a call rearranges the bytes in its reach, and reads and writes none beyond it. */
  lemma SortedRearranges(m: Bytes, lo: nat, count: nat, size: nat, comp: Comparator)
    requires 0 < size && lo + Reach(count, size) <= |m|
    ensures Perm(m, Sorted(m, lo, count, size, comp), lo, lo + Reach(count, size))
  {
    hide Perm, Sorted, Reach;
    SortedPermOf(m, lo, count, size, comp, lo, lo + Reach(count, size));
  }

  lemma ReachInside(count: nat, size: nat)
    requires 0 < size
    ensures Reach(count, size) <= count * size
    ensures 1 < count && 1 < size ==> Reach(count, size) < count * size
  {
    if count >= 3 {
      var rest := count - 3;
      assert (rest + 3) * size == rest * size + 3 * size;
      TimesMonotone(1, size, rest);
      assert size * rest == rest * size;
    }
  }

  // ----- what sorting means -----

  function Elem(m: Bytes, lo: nat, k: nat, size: nat): Bytes
    requires lo + k * size + size <= |m|
  {
    m[lo + k * size..lo + k * size + size]
  }

  function Elems(m: Bytes, lo: nat, count: nat, size: nat): (es: seq<Bytes>)
    requires lo + count * size <= |m|
    ensures |es| == count
  {
    if count == 0 then [] else
    ElementInside(count - 1, count, size);
    Elems(m, lo, count - 1, size) + [Elem(m, lo, count - 1, size)]
  }

  lemma {:induction false} ElemAt(m: Bytes, lo: nat, count: nat, size: nat, k: nat)
    requires k < count && lo + count * size <= |m|
    ensures lo + k * size + size <= |m| && Elems(m, lo, count, size)[k] == Elem(m, lo, k, size)
    decreases count
  {
    ElementInside(k, count, size);
    ElementInside(count - 1, count, size);
    if k < count - 1 {
      ElemAt(m, lo, count - 1, size, k);
    }
  }

  lemma ElementInside(k: nat, count: nat, size: nat)
    requires k < count
    ensures k * size + size <= count * size && (k + 1 < count && size > 0 ==> k * size + size < count * size)
    ensures (count - 1) * size + size == count * size
  {
    assert (k + 1) * size == k * size + size && (k + 2) * size == k * size + size + size;
    assert (count - 1) * size + size == count * size;
    TimesMonotone(k + 1, count, size);
    if k + 1 < count {
      TimesMonotone(k + 2, count, size);
    }
  }

  // A total preorder on elements of `size` bytes, as the standard asks of a comparison function.
  ghost predicate Preorder(comp: Comparator, size: nat) {
    && (forall x, y {:trigger comp(x, y)} | |x| == size && |y| == size :: comp(x, y) < 0 <==> comp(y, x) > 0)
    && (forall x, y, z {:trigger comp(x, y), comp(y, z)} | |x| == size && |y| == size && |z| == size
      && comp(x, y) <= 0 && comp(y, z) <= 0 :: comp(x, z) <= 0)
  }

  ghost predicate InOrder(es: seq<Bytes>, comp: Comparator) {
    forall i, j | 0 <= i < j < |es| :: comp(es[i], es[j]) <= 0
  }

  // The array at `lo` is in order and holds the elements it held before.
  ghost predicate IsSorting(m: Bytes, m': Bytes, lo: nat, count: nat, size: nat, comp: Comparator)
    requires lo + count * size <= |m| == |m'|
  {
    InOrder(Elems(m', lo, count, size), comp) && SameCounts(Elems(m, lo, count, size), Elems(m', lo, count, size))
  }

  // Every element occurs as often in one as in the other.
  ghost predicate SameCounts<T(!new)>(es: seq<T>, es': seq<T>) { forall e: T :: multiset(es')[e] == multiset(es)[e] }

  // ----- elements of one byte -----

  function Cmp(comp: Comparator, x: bv8, y: bv8): int { comp([x], [y]) }

  lemma SwapByte(m: Bytes, p: nat, q: nat)
    requires p < |m| && q < |m|
    ensures Swapped(m, p, q, 1) == m[p := m[q]][q := m[p]]
  {
    assert Swapped(m, p, q, 0) == m;
  }

  // Every byte of a part compares to `x` with order at most 0, or above 0.
  ghost predicate AllLow(m: Bytes, a: nat, b: nat, comp: Comparator, x: bv8) {
    a <= b <= |m| && forall k | a <= k < b :: Cmp(comp, m[k], x) <= 0
  }

  ghost predicate AllHigh(m: Bytes, a: nat, b: nat, comp: Comparator, x: bv8) {
    a <= b <= |m| && forall k | a <= k < b :: Cmp(comp, m[k], x) > 0
  }

  lemma FoundBefore(m: Bytes, m': Bytes, lo: nat, hi: nat, k: nat)
    requires Perm(m, m', lo, hi) && lo <= k < hi
    ensures exists j :: lo <= j < hi && m[j] == m'[k]
  {
    assert m'[lo..hi][k - lo] in multiset(m'[lo..hi]);
    assert m'[k] in multiset(m[lo..hi]);
    var j :| 0 <= j < hi - lo && m[lo..hi][j] == m'[k];
    assert m[lo + j] == m'[k];
  }

  lemma PermKeepsBounds(m: Bytes, m': Bytes, lo: nat, hi: nat, comp: Comparator, x: bv8)
    requires Perm(m, m', lo, hi)
    ensures AllLow(m, lo, hi, comp, x) ==> AllLow(m', lo, hi, comp, x)
    ensures AllHigh(m, lo, hi, comp, x) ==> AllHigh(m', lo, hi, comp, x)
  {
    forall k | lo <= k < hi
      ensures AllLow(m, lo, hi, comp, x) ==> Cmp(comp, m'[k], x) <= 0
      ensures AllHigh(m, lo, hi, comp, x) ==> Cmp(comp, m'[k], x) > 0
    {
      FoundBefore(m, m', lo, hi, k);
    }
  }

  lemma CompareBytes(m: Bytes, p: nat, q: nat, comp: Comparator)
    requires p < |m| && q < |m|
    ensures Compare(m, p, q, 1, comp) == Cmp(comp, m[p], m[q])
  {
    assert m[p..p + 1] == [m[p]] && m[q..q + 1] == [m[q]];
  }

  // What the loop of partition has passed on the left is low, on the right high.
  ghost predicate Passed(m: Bytes, lo: nat, i: nat, j: nat, comp: Comparator, count: nat) {
    && 0 < i <= j + 1 && j < count && lo + count <= |m| && i < count
    && AllLow(m, lo + 1, lo + i, comp, m[lo]) && AllHigh(m, lo + j + 1, lo + count, comp, m[lo])
  }

  lemma PassSwapped(m: Bytes, lo: nat, i: nat, j: nat, comp: Comparator, count: nat)
    requires Passed(m, lo, i, j, comp, count) && i < j
    requires Cmp(comp, m[lo + i], m[lo]) > 0 && Cmp(comp, m[lo + j], m[lo]) <= 0
    ensures var m' := Swapped(m, lo + i, lo + j, 1);
            Perm(m, m', lo, lo + count) && m'[lo] == m[lo] && Passed(m', lo, i + 1, j - 1, comp, count)
  {
    hide Swapped, Perm, Cmp;
    SwapByte(m, lo + i, lo + j);
    SwappedPerm(m, lo + i, lo + j, 1, lo, lo + count);
  }

  lemma PassRight(m: Bytes, lo: nat, i: nat, j: nat, comp: Comparator, count: nat)
    requires Passed(m, lo, i, j, comp, count) && i < j && Cmp(comp, m[lo + i], m[lo]) <= 0
    ensures Passed(m, lo, i + 1, j, comp, count)
  {}

  lemma PassLeft(m: Bytes, lo: nat, i: nat, j: nat, comp: Comparator, count: nat)
    requires Passed(m, lo, i, j, comp, count) && i < j && Cmp(comp, m[lo + j], m[lo]) > 0
    ensures Passed(m, lo, i, j - 1, comp, count)
  {}

  lemma PassBounds(m: Bytes, lo: nat, i: nat, j: nat, comp: Comparator, count: nat)
    requires Passed(m, lo, i, j, comp, count)
    ensures 0 < i <= j + 1 && j < count && lo + count <= |m| && i < count
  {}

  // One round of the loop, on bytes.
  lemma ScanRound(m: Bytes, lo: nat, i: nat, j: nat, comp: Comparator)
    requires lo + i < |m| && lo + j < |m| && 0 < i <= j + 1
    ensures Scanned(m, lo, i, j, 1, comp) ==
            if i >= j then Cut(m, i, j)
            else if Cmp(comp, m[lo + i], m[lo]) <= 0 then Scanned(m, lo, i + 1, j, 1, comp)
            else if Cmp(comp, m[lo + j], m[lo]) > 0 then Scanned(m, lo, i, j - 1, 1, comp)
            else Scanned(Swapped(m, lo + i, lo + j, 1), lo, i + 1, j - 1, 1, comp)
  {
    CompareBytes(m, lo + i, lo, comp);
    CompareBytes(m, lo + j, lo, comp);
  }

  lemma {:induction false} ScannedSplits(m: Bytes, lo: nat, i: nat, j: nat, comp: Comparator, count: nat)
    requires Passed(m, lo, i, j, comp, count)
    ensures var c := Scanned(m, lo, i, j, 1, comp);
            && Perm(m, c.m, lo, lo + count) && c.m[lo] == m[lo] && Passed(c.m, lo, c.i, c.j, comp, count)
            && (c.i == 1 && i < j ==> Cmp(comp, c.m[lo + 1], m[lo]) > 0)
    decreases j + 1 - i
  {
    hide Scanned, Swapped, Cmp, Perm, Passed;
    PassBounds(m, lo, i, j, comp, count);
    PermSame(m, lo, lo + count);
    ScanRound(m, lo, i, j, comp);
    if i < j {
      if Cmp(comp, m[lo + i], m[lo]) <= 0 {
        PassRight(m, lo, i, j, comp, count);
        ScannedSplits(m, lo, i + 1, j, comp, count);
      } else if Cmp(comp, m[lo + j], m[lo]) > 0 {
        PassLeft(m, lo, i, j, comp, count);
        ScannedSplits(m, lo, i, j - 1, comp, count);
        ScanRound(m, lo, i, j - 1, comp);
      } else {
        PassSwapped(m, lo, i, j, comp, count);
        var m' := Swapped(m, lo + i, lo + j, 1);
        ScannedSplits(m', lo, i + 1, j - 1, comp, count);
        PermTwice(m, m', Scanned(m', lo, i + 1, j - 1, 1, comp).m, lo, lo + count);
      }
    }
  }

  // Everything before `v` is low and everything behind it high, compared to what is at `v`.
  ghost predicate SplitAt(m: Bytes, lo: nat, v: nat, count: nat, comp: Comparator) {
    && v < count && lo + count <= |m|
    && AllLow(m, lo, lo + v, comp, m[lo + v]) && AllHigh(m, lo + v + 1, lo + count, comp, m[lo + v])
  }

  /** Each of the three exits of partition splits the array around the pivot it returns. */
  lemma PartitionSplits(m: Bytes, lo: nat, count: nat, comp: Comparator)
    requires count >= 3 && lo + count <= |m|
    ensures var (m', v) := Partitioned(m, lo, count, 1, comp, 0);
            Perm(m, m', lo, lo + count) && SplitAt(m', lo, v, count, comp)
  {
    hide Partitioned, Swapped, Scanned, Cmp, Perm, Passed, SplitAt;
    PartitionOnBytes(m, lo, count, comp);
    AllPassedYet(m, lo, count, comp);
    ScannedSplits(m, lo, 1, count - 1, comp, count);
    var c := Scanned(m, lo, 1, count - 1, 1, comp);
    if c.i > 1 {
      PivotPlaced(c, lo, count, comp);
      PermTwice(m, c.m, Swapped(c.m, lo, lo + PivotPlace(c, lo, comp), 1), lo, lo + count);
    } else {
      PivotFirst(c, lo, count, comp);
    }
  }

  function PivotPlace(c: Cut, lo: nat, comp: Comparator): (v: nat)
    requires 1 <= c.i && lo + c.i < |c.m|
    ensures v <= c.i
  {
    if Cmp(comp, c.m[lo + c.i], c.m[lo]) > 0 then c.i - 1 else c.i
  }

  lemma PartitionOnBytes(m: Bytes, lo: nat, count: nat, comp: Comparator)
    requires count >= 3 && lo + count <= |m|
    ensures var c := Scanned(m, lo, 1, count - 1, 1, comp);
            && c.i < count
            && Partitioned(m, lo, count, 1, comp, 0) ==
               if c.i > 1 then (Swapped(c.m, lo, lo + PivotPlace(c, lo, comp), 1), PivotPlace(c, lo, comp))
                 else (c.m, 0)
  {
    hide Swapped, Scanned, Compare, Cmp;
    SwapByte(m, lo, lo);
    assert Swapped(m, lo, lo, 1) == m;
    var c := Scanned(m, lo, 1, count - 1, 1, comp);
    CompareBytes(c.m, lo + c.i, lo, comp);
  }

  lemma AllPassedYet(m: Bytes, lo: nat, count: nat, comp: Comparator)
    requires count >= 3 && lo + count <= |m|
    ensures Passed(m, lo, 1, count - 1, comp, count)
  {}

  // The exits with i > 1: crossed, or met at a byte that may go either way.
  lemma PivotPlaced(c: Cut, lo: nat, count: nat, comp: Comparator)
    requires Passed(c.m, lo, c.i, c.j, comp, count) && c.i > 1 && c.i >= c.j
    ensures var v := PivotPlace(c, lo, comp);
            var m' := Swapped(c.m, lo, lo + v, 1);
            Perm(c.m, m', lo, lo + count) && SplitAt(m', lo, v, count, comp)
  {
    hide Swapped, Cmp, Perm, SplitAt;
    var v := PivotPlace(c, lo, comp);
    SwapByte(c.m, lo, lo + v);
    SwappedPerm(c.m, lo, lo + v, 1, lo, lo + count);
    PivotMoved(c.m, lo, v, count, comp);
  }

  // The exit with i = 1.
  lemma PivotFirst(c: Cut, lo: nat, count: nat, comp: Comparator)
    requires Passed(c.m, lo, c.i, c.j, comp, count) && c.i == 1 && c.i >= c.j && count >= 3
    requires Cmp(comp, c.m[lo + 1], c.m[lo]) > 0
    ensures SplitAt(c.m, lo, 0, count, comp)
  {}

  lemma PivotMoved(m: Bytes, lo: nat, v: nat, count: nat, comp: Comparator)
    requires v < count && lo + count <= |m|
    requires AllLow(m, lo + 1, lo + v + 1, comp, m[lo]) && AllHigh(m, lo + v + 1, lo + count, comp, m[lo])
    ensures SplitAt(m[lo := m[lo + v]][lo + v := m[lo]], lo, v, count, comp)
  {}

  ghost predicate ByteOrder(m: Bytes, lo: nat, hi: nat, comp: Comparator) {
    hi <= |m| && forall i, j | lo <= i < j < hi :: Cmp(comp, m[i], m[j]) <= 0
  }

  lemma SplitIsOrdered(m: Bytes, lo: nat, v: nat, count: nat, comp: Comparator)
    requires Preorder(comp, 1) && SplitAt(m, lo, v, count, comp)
    requires ByteOrder(m, lo, lo + v, comp) && ByteOrder(m, lo + v + 1, lo + count, comp)
    ensures ByteOrder(m, lo, lo + count, comp)
  {
    var x := m[lo + v];
    forall i, j | lo <= i < j < lo + count ensures Cmp(comp, m[i], m[j]) <= 0 {
      if i <= lo + v <= j {
        assert i < lo + v ==> Cmp(comp, m[i], x) <= 0;
        assert j > lo + v ==> Cmp(comp, m[j], x) > 0 && Cmp(comp, x, m[j]) < 0;
      }
    }
  }

  lemma {:induction false} SortedBytes(m: Bytes, lo: nat, count: nat, comp: Comparator)
    requires Preorder(comp, 1) && lo + count <= |m|
    ensures var m' := Sorted(m, lo, count, 1, comp);
            Perm(m, m', lo, lo + count) && ByteOrder(m', lo, lo + count, comp)
    decreases count
  {
    hide Swapped, Compare, Partitioned, Perm, ByteOrder, Preorder, SplitAt;
    if count < 2 {
      FewAreSorted(m, lo, count, comp);
    } else if count == 2 {
      TwoSorted(m, lo, comp);
    } else {
      var (m1, v) := Partitioned(m, lo, count, 1, comp, 0);
      var m2 := Sorted(m1, lo, v, 1, comp);
      var m3 := Sorted(m2, lo + v + 1, count - v - 1, 1, comp);
      PartitionSplits(m, lo, count, comp);
      SortedBytes(m1, lo, v, comp);
      SortedBytes(m2, lo + v + 1, count - v - 1, comp);
      PartsSorted(m, m1, m2, m3, lo, v, count, comp);
    }
  }

  lemma FewAreSorted(m: Bytes, lo: nat, count: nat, comp: Comparator)
    requires lo + count <= |m| && count < 2
    ensures Perm(m, m, lo, lo + count) && ByteOrder(m, lo, lo + count, comp)
  {}

  lemma TwoSorted(m: Bytes, lo: nat, comp: Comparator)
    requires Preorder(comp, 1) && lo + 2 <= |m|
    ensures var m' := Sorted(m, lo, 2, 1, comp);
            Perm(m, m', lo, lo + 2) && ByteOrder(m', lo, lo + 2, comp)
  {
    hide Swapped, Compare, Perm;
    CompareBytes(m, lo + 1, lo, comp);
    SwapByte(m, lo, lo + 1);
    SwappedPerm(m, lo, lo + 1, 1, lo, lo + 2);
    PermSame(m, lo, lo + 2);
  }

  lemma PartsSorted(m: Bytes, m1: Bytes, m2: Bytes, m3: Bytes, lo: nat, v: nat, count: nat, comp: Comparator)
    requires Preorder(comp, 1) && Perm(m, m1, lo, lo + count) && SplitAt(m1, lo, v, count, comp)
    requires v < count && lo + count <= |m1| == |m2|
    requires Perm(m1, m2, lo, lo + v) && Perm(m2, m3, lo + v + 1, lo + count)
    requires ByteOrder(m2, lo, lo + v, comp) && ByteOrder(m3, lo + v + 1, lo + count, comp)
    ensures Perm(m, m3, lo, lo + count) && ByteOrder(m3, lo, lo + count, comp)
  {
    hide Perm, ByteOrder, Cmp, Preorder, SplitAt;
    SplitKept(m1, m2, m3, lo, v, count, comp);
    SplitIsOrdered(m3, lo, v, count, comp);
    PermWider(m1, m2, lo, lo + v, lo, lo + count);
    PermWider(m2, m3, lo + v + 1, lo + count, lo, lo + count);
    PermTwice(m, m1, m2, lo, lo + count);
    PermTwice(m, m2, m3, lo, lo + count);
  }

  // Rearranging the parts on both sides of the pivot keeps the split, and the second part leaves the first alone.
  lemma SplitKept(m1: Bytes, m2: Bytes, m3: Bytes, lo: nat, v: nat, count: nat, comp: Comparator)
    requires SplitAt(m1, lo, v, count, comp)
    requires Perm(m1, m2, lo, lo + v) && Perm(m2, m3, lo + v + 1, lo + count)
    ensures SplitAt(m3, lo, v, count, comp)
    ensures ByteOrder(m2, lo, lo + v, comp) ==> ByteOrder(m3, lo, lo + v, comp)
  {
    hide Cmp, Perm, AllLow, AllHigh, ByteOrder;
    var x := m1[lo + v];
    OutsideKept(m1, m2, lo, lo + v);
    OutsideKept(m2, m3, lo + v + 1, lo + count);
    OrderCarriesOver(m2, m3, lo, lo + v, comp);
    PermKeepsBounds(m1, m2, lo, lo + v, comp, x);
    BoundsCarryOver(m2, m3, lo, lo + v, comp, x);
    BoundsCarryOver(m1, m2, lo + v + 1, lo + count, comp, x);
    PermKeepsBounds(m2, m3, lo + v + 1, lo + count, comp, x);
  }

  lemma OrderCarriesOver(m: Bytes, m': Bytes, a: nat, b: nat, comp: Comparator)
    requires b <= |m| == |m'| && forall k | a <= k < b :: m'[k] == m[k]
    ensures ByteOrder(m, a, b, comp) ==> ByteOrder(m', a, b, comp)
  {
    hide Cmp;
  }

  lemma BoundsCarryOver(m: Bytes, m': Bytes, a: nat, b: nat, comp: Comparator, x: bv8)
    requires a <= b <= |m| == |m'| && forall k | a <= k < b :: m'[k] == m[k]
    ensures AllLow(m, a, b, comp, x) ==> AllLow(m', a, b, comp, x)
    ensures AllHigh(m, a, b, comp, x) ==> AllHigh(m', a, b, comp, x)
  {}

  lemma OutsideKept(m: Bytes, m': Bytes, lo: nat, hi: nat)
    requires Perm(m, m', lo, hi)
    ensures |m| == |m'| && forall k | 0 <= k < |m| && !(lo <= k < hi) :: m'[k] == m[k]
  {
    forall k | 0 <= k < |m| && !(lo <= k < hi) ensures m'[k] == m[k] {
      if k < lo { assert m'[..lo][k] == m[..lo][k]; } else { assert m'[hi..][k - hi] == m[hi..][k - hi]; }
    }
  }

  // ----- for which sizes it sorts -----

  function Singles<T>(s: seq<T>): (es: seq<seq<T>>) { if s == [] then [] else Singles(s[..|s| - 1]) + [[s[|s| - 1]]] }

  lemma {:induction false} SinglesAt<T>(s: seq<T>)
    ensures |Singles(s)| == |s| && forall k | 0 <= k < |s| :: Singles(s)[k] == [s[k]]
  {
    if s != [] { SinglesAt(s[..|s| - 1]); }
  }

  // How often an element of one byte occurs is how often its byte does.
  lemma {:induction false} CountSingles<T>(s: seq<T>, e: seq<T>)
    ensures multiset(Singles(s))[e] == if |e| == 1 then multiset(s)[e[0]] else 0
  {
    if s != [] {
      var t, b := s[..|s| - 1], s[|s| - 1];
      CountSingles(t, e);
      CountAppend(Singles(t), [b], e);
      assert s == t + [b];
      if |e| == 1 {
        CountAppend(t, b, e[0]);
        assert e == [b] <==> e[0] == b;
      }
    }
  }

  lemma SinglesSame(s: Bytes, t: Bytes)
    requires multiset(s) == multiset(t)
    ensures SameCounts(Singles(s), Singles(t))
  {
    forall e: Bytes ensures multiset(Singles(t))[e] == multiset(Singles(s))[e] {
      CountSingles(s, e);
      CountSingles(t, e);
    }
  }

  lemma ElemsAreSingles(m: Bytes, lo: nat, count: nat)
    requires lo + count * 1 <= |m|
    ensures Elems(m, lo, count, 1) == Singles(m[lo..lo + count])
  {
    hide Elems;
    SinglesAt(m[lo..lo + count]);
    forall k | 0 <= k < count ensures Elems(m, lo, count, 1)[k] == Singles(m[lo..lo + count])[k] {
      OneByteElem(m, lo, count, k);
    }
  }

  lemma CountAppend<T>(s: seq<T>, x: T, y: T)
    ensures multiset(s + [x])[y] == multiset(s)[y] + if x == y then 1 else 0
  {}

  lemma BytesAreSorted(m: Bytes, lo: nat, count: nat, comp: Comparator)
    requires Preorder(comp, 1) && lo + count * 1 <= |m|
    ensures IsSorting(m, Sorted(m, lo, count, 1, comp), lo, count, 1, comp)
  {
    hide Sorted, Preorder, Elems;
    var m' := Sorted(m, lo, count, 1, comp);
    SortedBytes(m, lo, count, comp);
    SameElems(m, m', lo, count);
    var es' := Elems(m', lo, count, 1);
    forall i, j | 0 <= i < j < count ensures comp(es'[i], es'[j]) <= 0 {
      OneByteElem(m', lo, count, i);
      OneByteElem(m', lo, count, j);
      assert Cmp(comp, m'[lo + i], m'[lo + j]) <= 0;
    }
  }

  lemma OneByteElem(m: Bytes, lo: nat, count: nat, k: nat)
    requires k < count && lo + count * 1 <= |m|
    ensures Elems(m, lo, count, 1)[k] == [m[lo + k]]
  {
    ElemAt(m, lo, count, 1, k);
  }

  lemma SameElems(m: Bytes, m': Bytes, lo: nat, count: nat)
    requires lo + count * 1 <= |m| && Perm(m, m', lo, lo + count)
    ensures SameCounts(Elems(m, lo, count, 1), Elems(m', lo, count, 1))
  {
    ElemsAreSingles(m, lo, count);
    ElemsAreSingles(m', lo, count);
    SinglesSame(m[lo..lo + count], m'[lo..lo + count]);
  }

  // Compares elements by their last byte.
  function ByLastByte(x: Bytes, y: Bytes): int {
    if x == [] || y == [] then 0 else x[|x| - 1] as int - y[|y| - 1] as int
  }

  // Elements whose last byte is 1, except for the last element, where it is 0.
  function AlmostOnes(n: nat): Bytes { seq(n, i => if i + 1 == n then 0 else 1) }

  lemma LastByteOf(m: Bytes, count: nat, size: nat, k: nat)
    requires size > 0 && k < count && count * size <= |m|
    ensures k * size + size <= |m|
    ensures var e := Elems(m, 0, count, size)[k]; |e| == size && e[size - 1] == m[k * size + size - 1]
  {
    ElemAt(m, 0, count, size, k);
  }

  /** With elements of more than one byte the last byte stays where it is, so some arrays do not get sorted. */
  lemma WideElementsNotSorted(count: nat, size: nat)
    requires 1 < count && 1 < size
    ensures Preorder(ByLastByte, size) && Reach(count, size) < count * size
    ensures var m := AlmostOnes(count * size);
            !IsSorting(m, Sorted(m, 0, count, size, ByLastByte), 0, count, size, ByLastByte)
  {
    hide Sorted, Elems;
    ReachInside(count, size);
    var n := count * size;
    var m := AlmostOnes(n);
    var m' := Sorted(m, 0, count, size, ByLastByte);
    SortedRearranges(m, 0, count, size, ByLastByte);
    OutsideKept(m, m', 0, Reach(count, size));
    ElementInside(0, count, size);
    LastStaysLast(m, m', count, size);
  }

  lemma LastStaysLast(m: Bytes, m': Bytes, count: nat, size: nat)
    requires 1 < count && 1 < size && count * size == |m| == |m'| && size < |m|
    requires m[size - 1] == 1 && m'[|m| - 1] == 0
    ensures !IsSorting(m, m', 0, count, size, ByLastByte)
  {
    hide Elems;
    var es, es' := Elems(m, 0, count, size), Elems(m', 0, count, size);
    LastByteOf(m, count, size, 0);
    ElementInside(0, count, size);
    LastByteOf(m', count, size, count - 1);
    assert es[0] in multiset(es);
    if multiset(es')[es[0]] == multiset(es)[es[0]] {
      assert es[0] in multiset(es');
      var k :| 0 <= k < count && es'[k] == es[0];
      assert ByLastByte(es'[k], es'[count - 1]) > 0;
    }
  }

  // The first of n + 1 bytes at `p` has moved behind the others.
  ghost predicate Rotated(m: Bytes, r: Bytes, p: nat, n: nat) {
    && |r| == |m| && p + n < |m| && r[p + n] == m[p]
    && (forall x | p <= x < p + n :: r[x] == m[x + 1])
    && (forall x | 0 <= x < |m| && !(p <= x <= p + n) :: r[x] == m[x])
  }

  /** On regions one byte apart memswap moves the first byte behind the others. */
  lemma {:induction false} SwappedRotates(m: Bytes, p: nat, n: nat)
    requires p + 1 + n <= |m|
    ensures Rotated(m, Swapped(m, p, p + 1, n), p, n)
  {
    if n > 0 {
      SwappedRotates(m, p, n - 1);
      RotatesOn(m, Swapped(m, p, p + 1, n - 1), p, n - 1);
    }
  }

  lemma RotatesOn(m: Bytes, r: Bytes, p: nat, n: nat)
    requires Rotated(m, r, p, n) && p + n + 1 < |m|
    ensures Rotated(m, Exchanged(r, p + n, p + n + 1), p, n + 1)
  {}

  /** So two elements of any size are left alone, or their first `size + 1` bytes are rotated. */
  lemma TwoElements(m: Bytes, lo: nat, size: nat, comp: Comparator)
    requires 0 < size && lo + 1 + size <= |m|
    ensures var m' := Sorted(m, lo, 2, size, comp);
            && (comp(m[lo + 1..lo + 1 + size], m[lo..lo + size]) >= 0 ==> m' == m)
            && (comp(m[lo + 1..lo + 1 + size], m[lo..lo + size]) < 0 ==> Rotated(m, m', lo, size))
  {
    hide Rotated, Swapped;
    SwappedRotates(m, lo, size);
  }

  function AllEqual(x: Bytes, y: Bytes): int { 0 }

  /** Elements of two bytes are torn apart even when the comparison takes them all for equal. */
  lemma EqualElementsTorn(m: Bytes)
    requires |m| == 6
    ensures Preorder(AllEqual, 2) && Sorted(m, 0, 3, 2, AllEqual) == [m[0], m[3], m[1], m[2], m[4], m[5]]
  {
    hide Sorted, Swapped, Partitioned;
    TornPartition(m);
    var torn := [m[0], m[3], m[1], m[2], m[4], m[5]];
    TornParts(m, torn);
    TwoElements(torn, 0, 2, AllEqual);
  }

  lemma TornParts(m: Bytes, torn: Bytes)
    requires |m| == 6 == |torn| && Partitioned(m, 0, 3, 2, AllEqual, 1) == (torn, 2)
    ensures Sorted(m, 0, 3, 2, AllEqual) == Sorted(Sorted(torn, 0, 2, 2, AllEqual), 3, 0, 2, AllEqual)
    ensures Sorted(Sorted(torn, 0, 2, 2, AllEqual), 3, 0, 2, AllEqual) == Sorted(torn, 0, 2, 2, AllEqual)
  {
    hide Partitioned;
  }

  lemma TornPartition(m: Bytes)
    requires |m| == 6
    ensures Partitioned(m, 0, 3, 2, AllEqual, 1) == ([m[0], m[3], m[1], m[2], m[4], m[5]], 2)
  {
    hide Swapped;
    var m1 := Swapped(m, 0, 1, 2);
    SwappedRotates(m, 0, 2);
    assert m1 == [m[1], m[2], m[0], m[3], m[4], m[5]];
    assert Scanned(m1, 0, 2, 2, 2, AllEqual) == Cut(m1, 2, 2);
    assert Scanned(m1, 0, 1, 2, 2, AllEqual) == Cut(m1, 2, 2);
    SwapsApart(m1, 0, 2, 2);
    assert Swapped(m1, 0, 2, 2) == [m[0], m[3], m[1], m[2], m[4], m[5]];
  }

  // Whether arrays of `count` elements of `size` bytes are always sorted.
  ghost predicate SortsAlways(count: nat, size: nat)
    requires 0 < size
  {
    && Reach(count, size) <= count * size
    && forall m: Bytes, lo: nat, comp: Comparator | Preorder(comp, size) && lo + count * size <= |m| ::
         IsSorting(m, Sorted(m, lo, count, size, comp), lo, count, size, comp)
  }

  /** qsort sorts exactly arrays of one-byte elements and arrays of fewer than two elements. */
  lemma SortsIffOneByte(count: nat, size: nat)
    requires 0 < size
    ensures SortsAlways(count, size) <==> size == 1 || count < 2
  {
    ReachInside(count, size);
    if size == 1 {
      forall m: Bytes, lo: nat, comp: Comparator | Preorder(comp, 1) && lo + count * 1 <= |m|
        ensures IsSorting(m, Sorted(m, lo, count, 1, comp), lo, count, 1, comp)
      {
        BytesAreSorted(m, lo, count, comp);
      }
    } else if count >= 2 {
      WideElementsNotSorted(count, size);
      assert 0 + count * size <= |AlmostOnes(count * size)|;
    }
  }
}
