/**
 The memory functions of the C library. They share one byte memory, so source and destination may overlap, and move
 eight bytes at a time as 64-bit words with the lowest byte first, then the bytes that are left.
 */
module LibcString {
  // Byte `k` of a word.
  function ByteOf(w: bv64, k: nat): bv8
    requires k < 8
  {
    if k == 0 then (w & 0xFF) as bv8 else if k == 1 then ((w >> 8) & 0xFF) as bv8
    else if k == 2 then ((w >> 16) & 0xFF) as bv8 else if k == 3 then ((w >> 24) & 0xFF) as bv8
    else if k == 4 then ((w >> 32) & 0xFF) as bv8 else if k == 5 then ((w >> 40) & 0xFF) as bv8
    else if k == 6 then ((w >> 48) & 0xFF) as bv8 else ((w >> 56) & 0xFF) as bv8
  }

  function WordOf(b0: bv8, b1: bv8, b2: bv8, b3: bv8, b4: bv8, b5: bv8, b6: bv8, b7: bv8): bv64 {
    b0 as bv64 | (b1 as bv64 << 8) | (b2 as bv64 << 16) | (b3 as bv64 << 24)
    | (b4 as bv64 << 32) | (b5 as bv64 << 40) | (b6 as bv64 << 48) | (b7 as bv64 << 56)
  }

  /** The bytes of a word are those it was made of ... */
  lemma BytesOfWord(b0: bv8, b1: bv8, b2: bv8, b3: bv8, b4: bv8, b5: bv8, b6: bv8, b7: bv8)
    ensures var w := WordOf(b0, b1, b2, b3, b4, b5, b6, b7);
            && ByteOf(w, 0) == b0 && ByteOf(w, 1) == b1 && ByteOf(w, 2) == b2 && ByteOf(w, 3) == b3
            && ByteOf(w, 4) == b4 && ByteOf(w, 5) == b5 && ByteOf(w, 6) == b6 && ByteOf(w, 7) == b7
  {}

  method Load(mem: array<bv8>, p: nat) returns (w: bv64)
    requires p + 8 <= mem.Length
    ensures forall k | 0 <= k < 8 :: ByteOf(w, k) == mem[p + k]
  {
    BytesOfWord(mem[p], mem[p + 1], mem[p + 2], mem[p + 3], mem[p + 4], mem[p + 5], mem[p + 6], mem[p + 7]);
    w := WordOf(mem[p], mem[p + 1], mem[p + 2], mem[p + 3], mem[p + 4], mem[p + 5], mem[p + 6], mem[p + 7]);
    hide WordOf, ByteOf;
  }

  method Store(mem: array<bv8>, p: nat, w: bv64)
    requires p + 8 <= mem.Length
    modifies mem
    ensures forall k | p <= k < p + 8 :: mem[k] == ByteOf(w, k - p)
    ensures forall k | 0 <= k < mem.Length && !(p <= k < p + 8) :: mem[k] == old(mem[k])
  {
    hide ByteOf;
    for k := 0 to 8
      invariant forall j | p <= j < p + k :: mem[j] == ByteOf(w, j - p)
      invariant forall j | 0 <= j < mem.Length && !(p <= j < p + k) :: mem[j] == old(mem[j])
    {
      mem[p + k] := ByteOf(w, k);
    }
  }

  // The bytes at offsets from..to from `dest` are those that `was` has at `src`; nothing else differs.
  ghost predicate Moved(was: seq<bv8>, now: seq<bv8>, dest: nat, src: nat, from: nat, to: nat) {
    && |was| == |now| && dest + to <= |was| && src + to <= |was|
    && (forall k | dest + from <= k < dest + to :: now[k] == was[src + (k - dest)])
    && (forall k | 0 <= k < |was| && !(dest + from <= k < dest + to) :: now[k] == was[k])
  }

  // Parts may be moved from the top down when the destination is not below the source ...
  lemma MovedDown(was: seq<bv8>, mid: seq<bv8>, now: seq<bv8>, dest: nat, src: nat, from: nat, part: nat, to: nat)
    requires from <= part <= to && (dest >= src || dest + to <= src)
    requires Moved(was, mid, dest, src, part, to) && Moved(mid, now, dest, src, from, part)
    ensures Moved(was, now, dest, src, from, to)
  {}

  // ... and from the bottom up when it is.
  lemma MovedUp(was: seq<bv8>, mid: seq<bv8>, now: seq<bv8>, dest: nat, src: nat, part: nat, to: nat)
    requires part <= to && dest < src
    requires Moved(was, mid, dest, src, 0, part) && Moved(mid, now, dest, src, part, to)
    ensures Moved(was, now, dest, src, 0, to)
  {}

  // One 64-bit load and store.
  method MoveWord(mem: array<bv8>, dest: nat, src: nat, off: nat)
    requires dest + off + 8 <= mem.Length && src + off + 8 <= mem.Length
    modifies mem
    ensures Moved(old(mem[..]), mem[..], dest, src, off, off + 8)
  {
    hide ByteOf;
    var w := Load(mem, src + off);
    Store(mem, dest + off, w);
    forall k | dest + off <= k < dest + off + 8 ensures mem[k] == old(mem[..])[src + (k - dest)] {
      assert ByteOf(w, k - (dest + off)) == old(mem[..])[src + (k - dest)];
    }
  }

  method MoveByte(mem: array<bv8>, dest: nat, src: nat, off: nat)
    requires dest + off < mem.Length && src + off < mem.Length
    modifies mem
    ensures Moved(old(mem[..]), mem[..], dest, src, off, off + 1)
  {
    mem[dest + off] := mem[src + off];
  }

  // Moves downwards: the odd bytes at the end first, then words from the last one on.
  method MoveDown(mem: array<bv8>, dest: nat, src: nat, count: nat)
    requires dest + count <= mem.Length && src + count <= mem.Length
    requires dest >= src || dest + count <= src
    modifies mem
    ensures Moved(old(mem[..]), mem[..], dest, src, 0, count)
  {
    var words: nat, bytes: nat := count / 8, count % 8;
    ghost var was := mem[..];
    assert Moved(was, mem[..], dest, src, count, count);
    hide Moved;
    while bytes > 0
      invariant words * 8 + bytes <= count && Moved(was, mem[..], dest, src, words * 8 + bytes, count)
    {
      bytes := bytes - 1;
      ghost var mid := mem[..];
      MoveByte(mem, dest, src, words * 8 + bytes);
      MovedDown(was, mid, mem[..], dest, src, words * 8 + bytes, words * 8 + bytes + 1, count);
    }
    ghost var mid := mem[..];
    WordsDown(mem, dest, src, words);
    MovedDown(was, mid, mem[..], dest, src, 0, words * 8, count);
  }

  // The words, from the last one on.
  method WordsDown(mem: array<bv8>, dest: nat, src: nat, count: nat)
    requires dest + count * 8 <= mem.Length && src + count * 8 <= mem.Length
    requires dest >= src || dest + count * 8 <= src
    modifies mem
    ensures Moved(old(mem[..]), mem[..], dest, src, 0, count * 8)
  {
    ghost var was := mem[..];
    var words: nat := count;
    assert Moved(was, mem[..], dest, src, count * 8, count * 8);
    hide Moved;
    while words > 0
      invariant words <= count && Moved(was, mem[..], dest, src, words * 8, count * 8)
    {
      words := words - 1;
      ghost var mid := mem[..];
      MoveWord(mem, dest, src, words * 8);
      MovedDown(was, mid, mem[..], dest, src, words * 8, words * 8 + 8, count * 8);
    }
  }

  // Moves upwards: words first.
  method MoveUp(mem: array<bv8>, dest: nat, src: nat, count: nat)
    requires dest < src && src + count <= mem.Length
    modifies mem
    ensures Moved(old(mem[..]), mem[..], dest, src, 0, count)
  {
    var words: nat, bytes: nat := count / 8, count % 8;
    ghost var was := mem[..];
    assert Moved(was, mem[..], dest, src, 0, 0);
    hide Moved;
    for i := 0 to words
      invariant Moved(was, mem[..], dest, src, 0, i * 8)
    {
      ghost var mid := mem[..];
      MoveWord(mem, dest, src, i * 8);
      MovedUp(was, mid, mem[..], dest, src, i * 8, i * 8 + 8);
    }
    for i := 0 to bytes
      invariant Moved(was, mem[..], dest, src, 0, words * 8 + i)
    {
      ghost var mid := mem[..];
      MoveByte(mem, dest, src, words * 8 + i);
      MovedUp(was, mid, mem[..], dest, src, words * 8 + i, words * 8 + i + 1);
    }
  }

  /** memmove: for all regions, however they overlap. */
  method Memmove(mem: array<bv8>, dest: nat, src: nat, count: nat)
    requires dest + count <= mem.Length && src + count <= mem.Length
    modifies mem
    ensures mem[dest..dest + count] == old(mem[src..src + count])
    ensures forall k | 0 <= k < mem.Length && !(dest <= k < dest + count) :: mem[k] == old(mem[k])
  {
    if dest > src {
      MoveDown(mem, dest, src, count);
    } else if src > dest {
      MoveUp(mem, dest, src, count);
    }
  }

  /** memcpy: for regions that do not overlap. */
  method Memcpy(mem: array<bv8>, dest: nat, src: nat, count: nat)
    requires dest + count <= mem.Length && src + count <= mem.Length
    requires dest + count <= src || src + count <= dest
    modifies mem
    ensures mem[dest..dest + count] == old(mem[src..src + count])
    ensures forall k | 0 <= k < mem.Length && !(dest <= k < dest + count) :: mem[k] == old(mem[k])
  {
    MoveDown(mem, dest, src, count);
  }

  // Eight copies of a byte, by doubling.
  function Spread(b: bv8): bv64 {
    var w2 := (b as bv64 << 8) | b as bv64;
    var w4 := (w2 << 16) | w2;
    (w4 << 32) | w4
  }

  lemma SpreadBytes(b: bv8, k: nat)
    requires k < 8
    ensures ByteOf(Spread(b), k) == b
  {}

  method Memset(mem: array<bv8>, dest: nat, ch: bv8, count: nat)
    requires dest + count <= mem.Length
    modifies mem
    ensures forall k | dest <= k < dest + count :: mem[k] == ch
    ensures forall k | 0 <= k < mem.Length && !(dest <= k < dest + count) :: mem[k] == old(mem[k])
  {
    hide ByteOf, Spread;
    var words: nat, bytes: nat := count / 8, count % 8;
    var big := Spread(ch);
    while bytes > 0
      invariant words * 8 + bytes <= count && FilledFrom(old(mem[..]), mem[..], dest, words * 8 + bytes, count, ch)
    {
      bytes := bytes - 1;
      mem[dest + (words * 8 + bytes)] := ch;
    }
    while words > 0
      invariant words * 8 <= count && FilledFrom(old(mem[..]), mem[..], dest, words * 8, count, ch)
    {
      words := words - 1;
      Store(mem, dest + words * 8, big);
      forall k | dest + words * 8 <= k < dest + words * 8 + 8 ensures mem[k] == ch {
        SpreadBytes(ch, k - (dest + words * 8));
      }
    }
  }

  ghost predicate FilledFrom(was: seq<bv8>, now: seq<bv8>, dest: nat, from: nat, to: nat, ch: bv8) {
    && |was| == |now| && from <= to && dest + to <= |was|
    && (forall k | dest + from <= k < dest + to :: now[k] == ch)
    && (forall k | 0 <= k < |was| && !(dest + from <= k < dest + to) :: now[k] == was[k])
  }

  // ----- comparison -----

  // The first place where two byte strings of one length differ; that length if they do not.
  function FirstDifference(a: seq<bv8>, b: seq<bv8>): (k: nat)
    requires |a| == |b|
    ensures k <= |a| && (k < |a| ==> a[k] != b[k])
    ensures forall j | 0 <= j < k :: a[j] == b[j]
  {
    if a == [] || a[0] != b[0] then 0 else 1 + FirstDifference(a[1..], b[1..])
  }

  ghost predicate Same(m: seq<bv8>, p: nat, q: nat, n: nat) {
    p + n <= |m| && q + n <= |m| && m[p..p + n] == m[q..q + n]
  }

  // `a` comes before `b` in the order of a dictionary.
  ghost predicate Below(a: seq<bv8>, b: seq<bv8>) {
    exists k :: 0 <= k < |a| && k < |b| && a[..k] == b[..k] && a[k] as int < b[k] as int
  }

  lemma BelowIff(a: seq<bv8>, b: seq<bv8>)
    requires |a| == |b|
    ensures var k := FirstDifference(a, b); Below(a, b) <==> k < |a| && a[k] as int < b[k] as int
  {
    var k := FirstDifference(a, b);
    assert a[..k] == b[..k];
    if Below(a, b) {
      var j :| 0 <= j < |a| && a[..j] == b[..j] && a[j] as int < b[j] as int;
      SameBelow(a, b, j);
    }
  }

  lemma SameBelow(a: seq<bv8>, b: seq<bv8>, j: nat)
    requires j <= |a| && j <= |b| && a[..j] == b[..j]
    ensures forall i | 0 <= i < j :: a[i] == b[i]
  {
    assert forall i | 0 <= i < j :: a[..j][i] == b[..j][i];
  }

  // Where two strings differ first does not depend on which is named first.
  lemma DifferenceTurned(a: seq<bv8>, b: seq<bv8>)
    requires |a| == |b|
    ensures FirstDifference(a, b) == FirstDifference(b, a)
  {}

  /**
   memcmp: the difference of the first bytes that differ, taken as numbers; 0 if none do. Its sign is the order of the
   two regions in a dictionary.
  */
  method Memcmp(mem: array<bv8>, lhs: nat, rhs: nat, count: nat) returns (r: int)
    requires lhs + count <= mem.Length && rhs + count <= mem.Length && count < 0x8000_0000
    ensures var a, b := mem[lhs..lhs + count], mem[rhs..rhs + count];
            var k := FirstDifference(a, b);
            r == if k == count then 0 else Difference(a[k], b[k])
    ensures r == 0 <==> mem[lhs..lhs + count] == mem[rhs..rhs + count]
    ensures r < 0 <==> Below(mem[lhs..lhs + count], mem[rhs..rhs + count])
    ensures r > 0 <==> Below(mem[rhs..rhs + count], mem[lhs..lhs + count])
  {
    hide FirstDifference, Difference, Below, Same;
    var last := EqualWords(mem, lhs, rhs, count / 8);
    r := CompareFrom(mem, lhs, rhs, last * 8, count);
    SignIsOrder(mem[lhs..lhs + count], mem[rhs..rhs + count], r);
  }

  // How many words at the front are equal.
  method EqualWords(mem: array<bv8>, lhs: nat, rhs: nat, words: nat) returns (last: nat)
    requires lhs + words * 8 <= mem.Length && rhs + words * 8 <= mem.Length
    ensures last <= words && Same(mem[..], lhs, rhs, last * 8)
  {
    last := 0;
    ghost var m := mem[..];
    while last < words
      invariant last <= words && Same(m, lhs, rhs, last * 8)
    {
      var v := Load(mem, lhs + last * 8);
      var w := Load(mem, rhs + last * 8);
      if v != w {
        break;
      }
      SameWords(m, lhs, rhs, last * 8, v);
      last := last + 1;
    }
  }

  lemma SignIsOrder(a: seq<bv8>, b: seq<bv8>, r: int)
    requires |a| == |b|
    requires var k := FirstDifference(a, b); r == if k == |a| then 0 else Difference(a[k], b[k])
    ensures (r < 0 <==> Below(a, b)) && (r > 0 <==> Below(b, a))
  {
    hide Below, FirstDifference, Difference;
    BelowIff(a, b);
    BelowIff(b, a);
    DifferenceTurned(a, b);
    var k := FirstDifference(a, b);
    if k < |a| {
      DifferenceIs(a[k], b[k]);
    }
  }

  lemma DifferenceIs(a: bv8, b: bv8)
    ensures Difference(a, b) == a as int - b as int
  {}

  // The comparison of single bytes, when those before `from` are known to agree.
  method CompareFrom(mem: array<bv8>, lhs: nat, rhs: nat, from: nat, count: nat) returns (r: int)
    requires lhs + count <= mem.Length && rhs + count <= mem.Length && from <= count && Same(mem[..], lhs, rhs, from)
    ensures var a, b := mem[lhs..lhs + count], mem[rhs..rhs + count];
            var k := FirstDifference(a, b);
            r == if k == count then 0 else Difference(a[k], b[k])
    ensures r == 0 <==> mem[lhs..lhs + count] == mem[rhs..rhs + count]
  {
    hide Same, FirstDifference, Difference;
    ghost var m := mem[..];
    for i := from to count
      invariant Same(m, lhs, rhs, i)
    {
      var diff := Difference(mem[lhs + i], mem[rhs + i]);
      if diff != 0 {
        FirstDifferenceIs(m, lhs, rhs, count, i);
        assert mem[lhs..lhs + count] == m[lhs..lhs + count] && mem[rhs..rhs + count] == m[rhs..rhs + count];
        return diff;
      }
      SameByte(m, lhs, rhs, i);
    }
    SameAll(m, lhs, rhs, count);
    assert mem[lhs..lhs + count] == m[lhs..lhs + count] && mem[rhs..rhs + count] == m[rhs..rhs + count];
    r := 0;
  }

  function Difference(a: bv8, b: bv8): (d: int)
    ensures d == 0 <==> a == b
  {
    a as int - b as int
  }

  lemma SameByte(m: seq<bv8>, p: nat, q: nat, n: nat)
    requires Same(m, p, q, n) && p + n < |m| && q + n < |m| && m[p + n] == m[q + n]
    ensures Same(m, p, q, n + 1)
  {
    SameLonger(m, p, q, n, 1);
  }

  lemma SameAll(m: seq<bv8>, p: nat, q: nat, n: nat)
    requires Same(m, p, q, n)
    ensures m[p..p + n] == m[q..q + n] && FirstDifference(m[p..p + n], m[q..q + n]) == n
  {}

  lemma FirstDifferenceIs(m: seq<bv8>, p: nat, q: nat, count: nat, i: nat)
    requires p + count <= |m| && q + count <= |m| && i < count && Same(m, p, q, i) && m[p + i] != m[q + i]
    ensures FirstDifference(m[p..p + count], m[q..q + count]) == i && m[p..p + count] != m[q..q + count]
  {
    var a, b := m[p..p + count], m[q..q + count];
    assert a[i] != b[i];
    forall j | 0 <= j < i ensures a[j] == b[j] {
      assert m[p..p + i][j] == m[q..q + i][j];
    }
  }

  // Equal words hold equal bytes.
  lemma SameWords(m: seq<bv8>, p: nat, q: nat, n: nat, w: bv64)
    requires p + n + 8 <= |m| && q + n + 8 <= |m| && Same(m, p, q, n)
    requires (forall k | 0 <= k < 8 :: ByteOf(w, k) == m[p + n + k])
        && (forall k | 0 <= k < 8 :: ByteOf(w, k) == m[q + n + k])
    ensures Same(m, p, q, n + 8)
  {
    hide ByteOf;
    var a, b := m[p + n..p + n + 8], m[q + n..q + n + 8];
    forall k | 0 <= k < 8 ensures a[k] == b[k] {
      assert ByteOf(w, k) == m[p + n + k] == m[q + n + k];
    }
    assert a == b;
    SameLonger(m, p, q, n, 8);
  }

  lemma SameLonger(m: seq<bv8>, p: nat, q: nat, n: nat, k: nat)
    requires p + n + k <= |m| && q + n + k <= |m|
    requires Same(m, p, q, n) && m[p + n..p + n + k] == m[q + n..q + n + k]
    ensures Same(m, p, q, n + k)
  {
    assert m[p..p + (n + k)] == m[p..p + n] + m[p + n..p + n + k];
    assert m[q..q + (n + k)] == m[q..q + n] + m[q + n..q + n + k];
  }
}
