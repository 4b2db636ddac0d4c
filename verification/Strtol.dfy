/**
 strtol: from text to a 64-bit signed number in bases 2 to 36. Memory behind the given text counts as zeros.
 */
module Strtol {
  import opened CString
  import opened Facts

  const LONG_MAX := 0x7FFF_FFFF_FFFF_FFFF
  const LONG_MIN := -0x8000_0000_0000_0000

  // A 64-bit signed number; a variable of this type takes only results that did not overflow.
  type Long = x: int | LONG_MIN <= x <= LONG_MAX

  datatype Errno = NoError | EINVAL | ERANGE

  predicate IsSpace(c: char) { c in {' ', '\U{000C}', '\n', '\r', '\t', '\U{000B}'} }
  predicate IsDigit(c: char) { '0' <= c <= '9' }
  predicate IsAlnum(c: char) { IsDigit(c) || 'a' <= c <= 'z' || 'A' <= c <= 'Z' }

  // DIG_IN_BASE
  predicate InBase(c: char, base: int) {
    if base > 10 then IsDigit(c) || ('a' <= c && c as int < 'a' as int + base - 10)
      || ('A' <= c && c as int < 'A' as int + base - 10)
    else '0' <= c && (c as int) < '0' as int + base
  }

  function DigitOf(c: char): int {
    if IsDigit(c) then c as int - '0' as int
    else if 'a' <= c <= 'z' then 10 + c as int - 'a' as int
    else 10 + c as int - 'A' as int
  }

  lemma DigitInBase(c: char, base: int)
    requires 2 <= base <= 36 && InBase(c, base)
    ensures 0 <= DigitOf(c) < base && c != '\0'
  {}

  // ----- what is parsed -----

  function SkipSpaces(s: string, i: nat): (j: nat)
    ensures i <= j && !IsSpace(At(s, j))
    decreases |s| - i
  {
    if IsSpace(At(s, i)) then SkipSpaces(s, i + 1) else i
  }

  // The end of the digits from `i` on.
  function RunEnd(s: string, base: int, i: nat): (j: nat)
    requires 2 <= base <= 36
    ensures i <= j && !InBase(At(s, j), base) && forall k | i <= k < j :: InBase(At(s, k), base)
    decreases |s| - i
  {
    if InBase(At(s, i), base) then RunEnd(s, base, i + 1) else i
  }

  datatype Start = Start(neg: bool, base: int, first: nat)

  // The sign, the base, and where the digits start. Only a minus sign is known, and only a lower-case prefix.
  function StartOf(s: string, base: int): Start {
    var i := SkipSpaces(s, 0);
    var neg := At(s, i) == '-';
    var j := if neg then i + 1 else i;
    if At(s, j) != '0' then Start(neg, if base == 0 then 10 else base, j)
    else if At(s, j + 1) == 'x' && base in {0, 16} then
      if IsAlnum(At(s, j + 2)) then Start(neg, 16, j + 2) else Start(neg, if base == 0 then 10 else base, j)
    else if base in {0, 8} && IsAlnum(At(s, j + 1)) then Start(neg, 8, j + 1)
    else Start(neg, if base == 0 then 10 else base, j)
  }

  predicate GoodBase(base: int) { base == 0 || 2 <= base <= 36 }

  // The number that the digits from `lo` up to `hi` stand for.
  function Value(s: string, base: int, lo: nat, hi: nat): int
    requires lo <= hi
    decreases hi
  {
    if lo == hi then 0 else Value(s, base, lo, hi - 1) * base + DigitOf(At(s, hi - 1))
  }

  function Limit(neg: bool): int { if neg then -LONG_MIN else LONG_MAX }

  function Signed(neg: bool, n: int): int { if neg then -n else n }

  // The guard lets the last digit of a number of this magnitude pass.
  predicate Accepts(n: int, base: int, limit: int)
    requires base > 0
  {
    n / base + n % base <= limit / base
  }

  // The first digit, from `cur` on, that the guard stops.
  function Rejected(s: string, base: int, first: nat, cur: nat, limit: int): nat
    requires 2 <= base <= 36 && first <= cur
    decreases |s| - cur
  {
    if !InBase(At(s, cur), base) || !Accepts(Value(s, base, first, cur + 1), base, limit) then cur
    else Rejected(s, base, first, cur + 1, limit)
  }

  // Where the loop over the rest of the digits ends. DIG_IN_BASE evaluates its argument `*(++cur)` up to five times.
  function SkipTo(s: string, base: int, cur: nat): nat
    decreases |s| - cur
  {
    if base <= 10 then
      if Code(s, cur + 1) < '0' as int then cur + 1
      else if Code(s, cur + 2) < '0' as int + base then SkipTo(s, base, cur + 2) else cur + 2
    else if IsDigit(At(s, cur + 1)) then SkipTo(s, base, cur + 1)
    else if Code(s, cur + 2) >= 'a' as int then
      if Code(s, cur + 3) < 'a' as int + base - 10 then SkipTo(s, base, cur + 3)
      else if Code(s, cur + 4) < 'A' as int then cur + 4
      else if Code(s, cur + 5) < 'A' as int + base - 10 then SkipTo(s, base, cur + 5) else cur + 5
    else if Code(s, cur + 3) < 'A' as int then cur + 3
    else if Code(s, cur + 4) < 'A' as int + base - 10 then SkipTo(s, base, cur + 4) else cur + 4
  }

  // ----- the routine -----

  method Strtol(s: string, base: int) returns (ret: Long, end: nat, errno: Errno)
    ensures !GoodBase(base) ==> ret == 0 && errno == EINVAL
    ensures GoodBase(base) ==>
              var st := StartOf(s, base);
              var last := RunEnd(s, st.base, st.first);
              var n := Value(s, st.base, st.first, last);
              if Accepts(n, st.base, Limit(st.neg)) then ret == Signed(st.neg, n) && end == last && errno == NoError
              else ret == Signed(st.neg, Limit(st.neg)) && errno == ERANGE
                   && end == SkipTo(s, st.base, Rejected(s, st.base, st.first, st.first, Limit(st.neg)))
  {
    hide RunEnd, Value, Accepts, Rejected, SkipTo, InBase;
    end := 0;
    if base > 36 || base < 0 || base == 1 {
      return 0, end, EINVAL;
    }
    var b, cur := base, 0;
    while IsSpace(At(s, cur))
      invariant SkipSpaces(s, cur) == SkipSpaces(s, 0)
      decreases |s| - cur
    {
      cur := cur + 1;
    }
    var neg := false;
    if At(s, cur) == '-' {
      neg := true;
      cur := cur + 1;
    }
    if At(s, cur) == '0' {
      if At(s, cur + 1) == 'x' && (b == 16 || b == 0) {
        if IsAlnum(At(s, cur + 2)) {
          b := 16;
          cur := cur + 2;
        }
      } else if (b == 8 || b == 0) && IsAlnum(At(s, cur + 1)) {
        b := 8;
        cur := cur + 1;
      }
    }
    if b == 0 {
      b := 10;
    }
    assert StartOf(s, base) == Start(neg, b, cur);
    ret, end, errno := Digits(s, neg, b, cur);
  }

  // The loop over the digits.
  method Digits(s: string, neg: bool, base: int, first: nat) returns (ret: Long, cur: nat, errno: Errno)
    requires 2 <= base <= 36
    ensures var last := RunEnd(s, base, first);
            var n := Value(s, base, first, last);
            if Accepts(n, base, Limit(neg)) then ret == Signed(neg, n) && cur == last && errno == NoError
            else ret == Signed(neg, Limit(neg)) && errno == ERANGE
                 && cur == SkipTo(s, base, Rejected(s, base, first, first, Limit(neg)))
  {
    hide Accepts, InBase, DigitOf, RunEnd, Value, Rejected;
    ValueOfNone(s, base, first);
    ghost var last, limit := RunEnd(s, base, first), Limit(neg);
    ret, cur := 0, first;
    while InBase(At(s, cur), base)
      invariant first <= cur <= last && RunEnd(s, base, cur) == last
      invariant ret == Signed(neg, Value(s, base, first, cur)) && 0 <= Value(s, base, first, cur) <= limit
      invariant cur > first ==> Accepts(Value(s, base, first, cur), base, limit)
      invariant Rejected(s, base, first, cur, limit) == Rejected(s, base, first, first, limit)
      decreases |s| - cur
    {
      DigitInBase(At(s, cur), base);
      RunGoesOn(s, base, cur);
      var d := DigitOf(At(s, cur));
      ghost var v := Value(s, base, first, cur);
      GuardStep(v, d, base, limit);
      ValueOfOneMore(s, base, first, cur, limit);
      assert (-v) * base == -(v * base);
      if neg {
        var bound: Long := -(-LONG_MIN / base) + d;
        if ret < bound {
          RejectedStays(s, base, first, cur + 1, last, limit);
          cur := SkipDigits(s, base, cur);
          return LONG_MIN, cur, ERANGE;
        }
        var scaled: Long := ret * base;
        ret := scaled - d;
      } else {
        var bound: Long := LONG_MAX / base - d;
        if ret > bound {
          RejectedStays(s, base, first, cur + 1, last, limit);
          cur := SkipDigits(s, base, cur);
          return LONG_MAX, cur, ERANGE;
        }
        var scaled: Long := ret * base;
        ret := scaled + d;
      }
      cur := cur + 1;
    }
    errno := NoError;
    RunStops(s, base, first, cur, limit);
    ZeroAccepted(base, limit);
  }

  // `++cur` in the macro; `c` is the character it comes to.
  method SkipDigits(s: string, base: int, from: nat) returns (cur: nat)
    requires 2 <= base <= 36
    ensures cur == SkipTo(s, base, from)
  {
    cur := from;
    while true
      invariant SkipTo(s, base, cur) == SkipTo(s, base, from)
      decreases |s| - cur
    {
      var more;
      if base > 10 {
        cur := cur + 1;
        more := IsDigit(At(s, cur));
        if !more {
          cur := cur + 1;
          if Code(s, cur) >= 'a' as int {
            cur := cur + 1;
            more := Code(s, cur) < 'a' as int + base - 10;
          }
        }
        if !more {
          cur := cur + 1;
          if Code(s, cur) >= 'A' as int {
            cur := cur + 1;
            more := Code(s, cur) < 'A' as int + base - 10;
          }
        }
      } else {
        cur := cur + 1;
        more := Code(s, cur) >= '0' as int;
        if more {
          cur := cur + 1;
          more := Code(s, cur) < '0' as int + base;
        }
      }
      if !more {
        return;
      }
    }
  }

  lemma RunGoesOn(s: string, base: int, i: nat)
    requires 2 <= base <= 36 && InBase(At(s, i), base)
    ensures RunEnd(s, base, i) == RunEnd(s, base, i + 1) && i < |s|
  {}

  lemma RunStops(s: string, base: int, first: nat, i: nat, limit: int)
    requires 2 <= base <= 36 && !InBase(At(s, i), base) && first <= i
    ensures RunEnd(s, base, i) == i && Rejected(s, base, first, i, limit) == i
  {}

  lemma ValueOfNone(s: string, base: int, first: nat)
    ensures Value(s, base, first, first) == 0
  {}

  lemma ValueOfOneMore(s: string, base: int, first: nat, k: nat, limit: int)
    requires 2 <= base <= 36 && first <= k && InBase(At(s, k), base)
    ensures Value(s, base, first, k + 1) == Value(s, base, first, k) * base + DigitOf(At(s, k))
    ensures Rejected(s, base, first, k, limit) ==
            if Accepts(Value(s, base, first, k + 1), base, limit) then Rejected(s, base, first, k + 1, limit) else k
  {}

  lemma ZeroAccepted(base: int, limit: int)
    requires 2 <= base <= 36 && 0 <= limit
    ensures Accepts(0, base, limit)
  {}

  // ----- arithmetic -----

  lemma DivideBack(v: int, d: int, base: int)
    requires 0 <= d < base && 0 <= v
    ensures (v * base + d) / base == v && (v * base + d) % base == d
  {
    var n := v * base + d;
    Quotient(n, base);
    OneQuotient(n / base, n % base, v, d, base);
  }

  lemma Quotient(n: int, base: int)
    requires 0 < base
    ensures n == (n / base) * base + n % base && 0 <= n % base < base
    ensures 0 <= n ==> 0 <= n / base
  {}

  lemma OneQuotient(q: int, r: int, v: int, d: int, base: int)
    requires 0 <= r < base && 0 <= d < base && q * base + r == v * base + d
    ensures q == v && r == d
  {
    assert (q + 1) * base == q * base + base && (v + 1) * base == v * base + base;
    if q < v {
      TimesMonotone(q + 1, v, base);
    } else if v < q {
      TimesMonotone(v + 1, q, base);
    }
  }

  // What the guard `v > limit / base - d` decides: no value on the way exceeds the limit.
  lemma GuardStep(v: int, d: int, base: int, limit: int)
    requires 0 <= v && 0 <= d < base && 0 <= limit
    ensures Accepts(v * base + d, base, limit) <==> v <= limit / base - d
    ensures v <= limit / base - d ==> 0 <= v * base <= v * base + d <= limit
    ensures 0 <= limit / base <= limit
    ensures 0 <= v * base + d
  {
    DivideBack(v, d, base);
    TimesMonotone(0, v, base);
    QuotientSmaller(limit, base);
    if v <= limit / base - d {
      NoOverflow(v, d, base, limit / base, limit);
    }
  }

  lemma NoOverflow(v: int, d: int, base: int, q: int, limit: int)
    requires 0 <= v <= q - d && 0 <= d < base && q == limit / base
    ensures v * base + d <= limit
  {
    Quotient(limit, base);
    TimesMonotone(v, q - d, base);
    TimesMonotone(1, base, d);
    assert (q - d) * base == q * base - base * d;
  }

  // A number the guard does not accept is not accepted with more digits either.
  lemma {:induction false} RejectedStays(s: string, base: int, first: nat, k: nat, last: nat, limit: int)
    requires 2 <= base <= 36 && 0 <= limit && first < k <= last && forall i | first <= i < last ::
        InBase(At(s, i), base)
    requires !Accepts(Value(s, base, first, k), base, limit)
    ensures !Accepts(Value(s, base, first, last), base, limit)
    decreases last
  {
    if k < last {
      RejectedStays(s, base, first, k, last - 1, limit);
      var v := Value(s, base, first, last - 1);
      ValueNotNegative(s, base, first, last - 1);
      DigitInBase(At(s, last - 1), base);
      GuardStep(v, DigitOf(At(s, last - 1)), base, limit);
      QuotientSmaller(v, base);
    }
  }

  lemma QuotientSmaller(v: int, base: int)
    requires v >= 0 && base > 0
    ensures v / base + v % base <= v
  {
    Quotient(v, base);
    TimesMonotone(1, base, v / base);
    assert (v / base) * base == base * (v / base);
  }

  lemma {:induction false} ValueNotNegative(s: string, base: int, first: nat, k: nat)
    requires 2 <= base <= 36 && first <= k && forall i | first <= i < k :: InBase(At(s, i), base)
    ensures 0 <= Value(s, base, first, k)
    decreases k
  {
    if first < k {
      ValueNotNegative(s, base, first, k - 1);
      DigitInBase(At(s, k - 1), base);
      TimesMonotone(0, Value(s, base, first, k - 1), base);
    }
  }

  // ----- what the guard means -----

  /** Every magnitude up to limit - base * (base - 1) is accepted, and none above the limit is. */
  lemma AcceptedRange(n: int, base: int, limit: int)
    requires 2 <= base && 0 <= n && 0 <= limit
    ensures n <= limit - base * (base - 1) ==> Accepts(n, base, limit)
    ensures Accepts(n, base, limit) ==> n <= limit
  {
    var v, d, q := n / base, n % base, limit / base;
    Quotient(n, base);
    Quotient(limit, base);
    GuardStep(v, d, base, limit);
    assert (q + 2 - base) * base == q * base + 2 * base - base * base;
    assert base * (base - 1) == base * base - base;
    if n <= limit - base * (base - 1) && v > q - d {
      TimesMonotone(q + 2 - base, v, base);
    }
  }

  /** LONG_MAX itself is refused: it is reported as out of range, though it fits. */
  lemma LongMaxIsRefused()
    ensures !Accepts(LONG_MAX, 10, LONG_MAX) && Accepts(LONG_MAX - 90, 10, LONG_MAX)
  {}

  /**
   Where str_end points after an overflow, for text that ends with its digits: just past them if the digits after
   the one that overflowed are even in number, and one further, past the terminator, if they are odd.
   */
  lemma {:induction false} EndAfterOverflow(s: string, base: int, k: nat)
    requires 2 <= base <= 10 && k < |s| && forall i | k <= i < |s| :: InBase(s[i], base)
    ensures SkipTo(s, base, k) == if (|s| - 1 - k) % 2 == 0 then |s| else |s| + 1
    decreases |s| - k
  {
    hide InBase;
    forall i: nat | k < i ensures if i < |s| then '0' as int <= Code(s, i) < '0' as int + base else Code(s, i) == 0 {
      DigitCode(s, base, i);
    }
    if k + 2 < |s| {
      EndAfterOverflow(s, base, k + 2);
    }
  }

  lemma DigitCode(s: string, base: int, i: nat)
    requires 2 <= base <= 10 && (i < |s| ==> InBase(s[i], base))
    ensures if i < |s| then '0' as int <= Code(s, i) < '0' as int + base else Code(s, i) == 0
  {}

  /** In bases above 10 it is two past the terminator if decimal digits are left ... */
  lemma {:induction false} EndAfterDecimals(s: string, base: int, k: nat)
    requires 10 < base && k < |s| && forall i | k < i < |s| :: IsDigit(s[i])
    ensures SkipTo(s, base, k) == |s| + 2
    decreases |s| - k
  {
    if k + 1 < |s| { EndAfterDecimals(s, base, k + 1); }
  }

  /** ... and with letters among them it may lie in the middle of the digits. */
  lemma EndAmongDigits()
    ensures var s := "fa000"; (forall i | 0 <= i < |s| :: InBase(s[i], 16)) && SkipTo(s, 16, 0) == 3
  {
    var s := "fa000";
    assert At(s, 1) == 'a' && At(s, 2) == '0' && At(s, 3) == '0';
  }

  // ----- writing and reading back -----

  function DigitChar(d: nat): char
    requires d < 36
  {
    if d < 10 then '0' + d as char else 'a' + (d - 10) as char
  }

  function Numeral(n: nat, base: nat): string
    requires 2 <= base <= 36
  {
    if n < base then [DigitChar(n)] else
    QuotientLess(n, base);
    Numeral(n / base, base) + [DigitChar(n % base)]
  }

  lemma QuotientLess(n: nat, base: nat)
    requires 2 <= base <= n
    ensures 0 < n / base < n
  {
    Quotient(n, base);
    TimesMonotone(2, base, n);
    assert n * base == base * n;
    if n / base >= n {
      TimesMonotone(n, n / base, base);
    } else if n / base <= 0 {
      TimesMonotone(n / base, 0, base);
    }
  }

  lemma DigitBack(d: nat, base: nat)
    requires d < base && 2 <= base <= 36
    ensures InBase(DigitChar(d), base) && DigitOf(DigitChar(d)) == d
    ensures d > 0 ==> DigitChar(d) != '0'
    ensures DigitChar(d) != '-' && !IsSpace(DigitChar(d))
  {}

  // A letter digit in capitals.
  function Capital(c: char): char { if 'a' <= c <= 'z' then c - 32 as char else c }

  /** `s` is the numeral of `n`, each letter in it small or capital. */
  ghost predicate Writes(s: string, n: nat, base: nat)
    requires 2 <= base <= 36
  {
    var t := Numeral(n, base);
    |s| == |t| && forall i | 0 <= i < |s| :: s[i] == t[i] || s[i] == Capital(t[i])
  }

  // What may stand before the digits for the base argument, and the base that the digits are in.
  predicate Prefixed(arg: int, prefix: string, base: nat) {
    || (prefix == "" && 2 <= base <= 36 && (arg == base || (arg == 0 && base == 10)))
    || (prefix == "0x" && base == 16 && arg in {0, 16})
    || (prefix == "0" && base == 8 && arg in {0, 8})
  }

  lemma CapitalDigit(d: nat, base: nat)
    requires d < base && 2 <= base <= 36
    ensures var c := Capital(DigitChar(d));
            && InBase(c, base) && DigitOf(c) == d && c != '-' && !IsSpace(c) && IsAlnum(c) && c != 'x'
            && (c == '0' <==> d == 0)
  {}

  lemma SmallDigit(d: nat, base: nat)
    requires d < base && 2 <= base <= 36
    ensures var c := DigitChar(d); IsAlnum(c) && (c == '0' <==> d == 0)
  {}

  // Every character of a numeral is the digit of some number.
  lemma {:induction false} NumeralDigits(n: nat, base: nat, i: nat)
    requires 2 <= base <= 36 && i < |Numeral(n, base)|
    ensures exists d: nat :: d < base && Numeral(n, base)[i] == DigitChar(d)
    decreases n
  {
    if n >= base {
      QuotientLess(n, base);
      Quotient(n, base);
      if i < |Numeral(n / base, base)| { NumeralDigits(n / base, base, i); }
    }
  }

  lemma WrittenDigit(s: string, n: nat, base: nat, i: nat)
    requires 2 <= base <= 36 && Writes(s, n, base) && i < |s|
    ensures DigitOf(s[i]) == DigitOf(Numeral(n, base)[i]) && InBase(s[i], base) && IsAlnum(s[i])
    ensures s[i] != '-' && !IsSpace(s[i]) && (s[i] == '0' <==> Numeral(n, base)[i] == '0')
  {
    hide InBase, DigitOf, IsSpace, Capital, DigitChar, IsAlnum;
    NumeralDigits(n, base, i);
    var d: nat :| d < base && Numeral(n, base)[i] == DigitChar(d);
    DigitBack(d, base);
    CapitalDigit(d, base);
    SmallDigit(d, base);
  }

  lemma Written(s: string, n: nat, base: nat)
    requires 2 <= base <= 36 && Writes(s, n, base)
    ensures s != [] && Value(s, base, 0, |s|) == n
    ensures forall i | 0 <= i < |s| :: InBase(s[i], base) && s[i] != '-' && !IsSpace(s[i]) && IsAlnum(s[i])
    ensures (n > 0 ==> s[0] != '0') && (n == 0 ==> s == "0")
  {
    hide InBase, DigitOf, IsSpace, Capital, DigitChar, IsAlnum;
    NumeralValue(n, base);
    var t := Numeral(n, base);
    forall i | 0 <= i < |s|
      ensures InBase(s[i], base) && s[i] != '-' && !IsSpace(s[i]) && IsAlnum(s[i]) && DigitOf(s[i]) == DigitOf(t[i])
    {
      WrittenDigit(s, n, base, i);
    }
    ValueElsewhere(t, s, base, 0, |t|);
    WrittenDigit(s, n, base, 0);
  }

  // The digits of a shorter text do not depend on what follows, nor on what stands before them.
  lemma {:induction false} ValueElsewhere(s: string, t: string, base: int, off: nat, n: nat)
    requires n <= |s| && off + n <= |t| && forall i | 0 <= i < n :: DigitOf(t[off + i]) == DigitOf(s[i])
    ensures Value(t, base, off, off + n) == Value(s, base, 0, n)
    decreases n
  {
    if n > 0 {
      ValueElsewhere(s, t, base, off, n - 1);
      assert DigitOf(t[off + (n - 1)]) == DigitOf(s[n - 1]);
    }
  }

  lemma {:induction false} NumeralValue(n: nat, base: nat)
    requires 2 <= base <= 36
    ensures var s := Numeral(n, base);
            && s != [] && Value(s, base, 0, |s|) == n
            && (forall i | 0 <= i < |s| :: InBase(s[i], base) && s[i] != '-' && !IsSpace(s[i]))
            && (n > 0 ==> s[0] != '0') && (n == 0 ==> s == "0")
    decreases n
  {
    if n < base {
      DigitBack(n, base);
      var s := Numeral(n, base);
      assert Value(s, base, 0, 1) == Value(s, base, 0, 0) * base + n;
    } else {
      QuotientLess(n, base);
      var t, d := Numeral(n / base, base), n % base;
      Quotient(n, base);
      NumeralValue(n / base, base);
      DigitBack(d, base);
      var s := t + [DigitChar(d)];
      assert Numeral(n, base) == s;
      ValueElsewhere(t, s, base, 0, |t|);
      assert Value(s, base, 0, |s|) == Value(s, base, 0, |t|) * base + d;
    }
  }

  lemma {:induction false} RunOfDigits(s: string, base: int, i: nat, end: nat)
    requires 2 <= base <= 36 && i <= end <= |s| && !InBase(At(s, end), base)
    requires forall k | i <= k < end :: InBase(s[k], base)
    ensures RunEnd(s, base, i) == end
    decreases end - i
  {
    if i < end { RunOfDigits(s, base, i + 1, end); }
  }

  lemma {:induction false} SpacesSkipped(s: string, i: nat, end: nat)
    requires i <= end <= |s| && !IsSpace(At(s, end)) && forall k | i <= k < end :: IsSpace(s[k])
    ensures SkipSpaces(s, i) == end
    decreases end - i
  {
    if i < end { SpacesSkipped(s, i + 1, end); }
  }

  // What strtol is given: space, a sign, a prefix, digits, and something that is no letter or digit, if anything.
  function Text(space: string, neg: bool, prefix: string, digits: string, rest: string): string {
    space + (if neg then "-" else "") + prefix + digits + rest
  }

  ghost predicate Numbers(space: string, arg: int, prefix: string, base: nat, n: nat, digits: string, rest: string) {
    && Prefixed(arg, prefix, base) && Writes(digits, n, base)
    && (forall i | 0 <= i < |space| :: IsSpace(space[i])) && (rest != [] ==> !IsAlnum(rest[0]))
  }

  /**
   Round trip: the numeral of `n` in any base, in small or capital letters, after space, a sign and the prefix the base
   argument allows, is parsed as `n` in full, whatever follows it.
  */
  lemma NumeralParsed(space: string, neg: bool, arg: int, prefix: string, base: nat, n: nat, digits: string,
      rest: string)
    requires Numbers(space, arg, prefix, base, n, digits, rest)
    ensures var s := Text(space, neg, prefix, digits, rest);
            var st := StartOf(s, arg);
            && st == Start(neg, base, |s| - |rest| - |digits|) && GoodBase(arg)
            && RunEnd(s, base, st.first) == |s| - |rest|
            && Value(s, base, st.first, |s| - |rest|) == n
  {
    hide Text, StartOf, InBase, IsSpace, IsAlnum, DigitOf, Writes, RunEnd, Value;
    var s := Text(space, neg, prefix, digits, rest);
    var first := |space| + (if neg then 1 else 0) + |prefix|;
    Written(digits, n, base);
    TextAt(space, neg, prefix, digits, rest);
    NotAlnumZero();
    NoDigitAfter(s, first + |digits|, base);
    StartAfter(s, space, neg, arg, prefix, base, n, digits);
    RunOfDigits(s, base, first, first + |digits|);
    ValueElsewhere(digits, s, base, first, |digits|);
  }

  lemma NotAlnumZero()
    ensures !IsAlnum('\0')
  {}

  lemma TextAt(space: string, neg: bool, prefix: string, digits: string, rest: string)
    ensures var s := Text(space, neg, prefix, digits, rest);
            var j := |space| + if neg then 1 else 0;
            var first := j + |prefix|;
            && |s| == first + |digits| + |rest|
            && (forall i | 0 <= i < |space| :: s[i] == space[i]) && (neg ==> s[|space|] == '-')
            && (forall i | 0 <= i < |prefix| :: s[j + i] == prefix[i])
            && (forall i | 0 <= i < |digits| :: s[first + i] == digits[i])
            && At(s, first + |digits|) == (if rest == [] then '\0' else rest[0])
            && (forall i | first <= i < first + |digits| :: s[i] == digits[i - first])
  {}

  lemma NoDigitAfter(s: string, end: nat, base: nat)
    requires !IsAlnum(At(s, end)) && 2 <= base <= 36
    ensures !InBase(At(s, end), base) && At(s, end) != 'x'
  {}

  // Where the digits start.
  lemma StartAfter(s: string, space: string, neg: bool, arg: int, prefix: string, base: nat, n: nat, digits: string)
    requires Prefixed(arg, prefix, base) && digits != [] && InBase(digits[0], base)
    requires (n > 0 ==> digits[0] != '0') && (n == 0 ==> digits == "0")
    requires forall i | 0 <= i < |digits| :: digits[i] != '-' && !IsSpace(digits[i]) && IsAlnum(digits[i])
    requires var j := |space| + if neg then 1 else 0;
             var first := j + |prefix|;
             && first + |digits| <= |s| && !IsAlnum(At(s, first + |digits|))
             && (forall i | 0 <= i < |space| :: s[i] == space[i] && IsSpace(s[i])) && (neg ==> s[|space|] == '-')
             && (forall i | 0 <= i < |prefix| :: s[j + i] == prefix[i])
             && (forall i | 0 <= i < |digits| :: s[first + i] == digits[i])
    ensures StartOf(s, arg) == Start(neg, base, |space| + (if neg then 1 else 0) + |prefix|)
  {
    hide IsSpace, IsAlnum;
    SignsAreNone();
    var j := |space| + if neg then 1 else 0;
    assert s[j] == if prefix == [] then digits[0] else prefix[0];
    SpacesSkipped(s, 0, |space|);
    assert At(s, j + |prefix|) == digits[0];
    if prefix == "0x" {
      assert s[j + 1] == prefix[1];
    } else if n == 0 && prefix == [] {
      assert !IsAlnum(At(s, j + 1));
    }
  }

  lemma SignsAreNone()
    ensures !IsSpace('-') && !IsSpace('0') && IsAlnum('x') && IsAlnum('0')
  {}

  /** So every number of magnitude at most LONG_MAX - base * (base - 1) survives being written and read. */
  method ReadBack(space: string, neg: bool, arg: int, prefix: string, base: nat, ghost n: nat, digits: string,
      rest: string) returns (ret: int, end: nat, errno: Errno)
    requires Numbers(space, arg, prefix, base, n, digits, rest) && n <= LONG_MAX - base * (base - 1)
    ensures ret == Signed(neg, n) && errno == NoError
    ensures end == |Text(space, neg, prefix, digits, rest)| - |rest|
  {
    NumeralParsed(space, neg, arg, prefix, base, n, digits, rest);
    AcceptedRange(n, base, Limit(neg));
    ret, end, errno := Strtol(Text(space, neg, prefix, digits, rest), arg);
  }
}
