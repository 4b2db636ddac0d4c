/**
 strstr: after a partial match it goes on behind the part that matched. That is right for some needles only; here
 it is proved for exactly which.
 */
module Strstr {
  import opened Wrappers
  import opened CString

  predicate Matches(h: string, n: string, p: nat, k: nat)
    requires k < |n|
  {
    At(h, p + k) == n[k]
  }

  predicate OccursAt(h: string, n: string, p: nat) { forall k | 0 <= k < |n| :: Matches(h, n, p, k) }

  // `r` is where `n` first occurs in `h`.
  ghost predicate IsFirst(h: string, n: string, r: Option<nat>) {
    match r
    case Some(p) => OccursAt(h, n, p) && forall q: nat | q < p :: !OccursAt(h, n, q)
    case None => forall q: nat :: !OccursAt(h, n, q)
  }

  // How far the needle matches at `p`, when its first `i` characters do.
  function Matched(h: string, n: string, p: nat, i: nat): (j: nat)
    requires i <= |n|
    ensures i <= j <= |n| && (j < |n| ==> !Matches(h, n, p, j))
    ensures forall k | i <= k < j :: Matches(h, n, p, k)
    decreases |n| - i
  {
    if i < |n| && Matches(h, n, p, i) then Matched(h, n, p, i + 1) else i
  }

  function Scan(h: string, n: string, p: nat): (r: Option<nat>)
    requires n != []
    decreases |h| - p
  {
    if p >= |h| then None
    else if h[p] != n[0] then Scan(h, n, p + 1)
    else
      var i := Matched(h, n, p, 1);
      if i == |n| then Some(p) else Scan(h, n, p + i)
  }

  function Search(h: string, n: string): Option<nat> { if n == [] then Some(0) else Scan(h, n, 0) }

  method Strstr(h: string, n: string) returns (r: Option<nat>)
    requires '\0' !in h && '\0' !in n
    ensures r == Search(h, n)
  {
    if |n| == 0 {
      return Some(0);
    }
    var p := 0;
    while At(h, p) != '\0'
      invariant p <= |h| && Scan(h, n, p) == Scan(h, n, 0)
      decreases |h| - p
    {
      if At(h, p) == n[0] {
        var i, whole := 1, true;
        while i < |n|
          invariant i <= |n| && whole && Matched(h, n, p, i) == Matched(h, n, p, 1)
          invariant forall k | 0 <= k < i :: Matches(h, n, p, k)
        {
          if At(h, p + i) != n[i] {
            whole := false;
            break;
          }
          i := i + 1;
        }
        if whole {
          return Some(p);
        }
        InsideText(h, n, p, i);
        p := p + i;
      } else {
        p := p + 1;
      }
    }
    r := None;
  }

  // What matched lies in the text, as the needle holds no zero.
  lemma InsideText(h: string, n: string, p: nat, i: nat)
    requires '\0' !in n && p < |h| && 1 <= i <= |n| && forall k | 0 <= k < i :: Matches(h, n, p, k)
    ensures p + i <= |h|
  {
    assert Matches(h, n, p, i - 1) && n[i - 1] in n;
  }

  // Wherever the first character recurs in the needle, the needle repeats itself from there to its end.
  predicate Repeats(n: string) { forall r | 1 <= r < |n| && n[r] == n[0] :: n[r..] == n[..|n| - r] }

  // A needle that matches up to `i` and not beyond does not occur at any of the places skipped.
  lemma SkipsNothing(h: string, n: string, p: nat, i: nat, r: nat)
    requires Repeats(n) && 1 <= i < |n| && r < i
    requires (forall k | 0 <= k < i :: Matches(h, n, p, k)) && !Matches(h, n, p, i)
    ensures !OccursAt(h, n, p + r)
  {
    assert Matches(h, n, p, r);
    assert r > 0 && n[r] == n[0] ==> n[r..][i - r] == n[..|n| - r][i - r];
    assert !Matches(h, n, p + r, 0) || !Matches(h, n, p + r, i - r);
  }

  lemma {:induction false} ScanFindsFirst(h: string, n: string, p: nat)
    requires n != [] && '\0' !in n && Repeats(n) && forall q: nat | q < p :: !OccursAt(h, n, q)
    ensures IsFirst(h, n, Scan(h, n, p))
    decreases |h| - p
  {
    if p < |h| {
      if h[p] != n[0] {
        assert !Matches(h, n, p, 0);
        ScanFindsFirst(h, n, p + 1);
      } else {
        var i := Matched(h, n, p, 1);
        assert Matches(h, n, p, 0);
        if i < |n| {
          forall q: nat | q < p + i ensures !OccursAt(h, n, q) {
            if q >= p { SkipsNothing(h, n, p, i, q - p); }
          }
          ScanFindsFirst(h, n, p + i);
        }
      }
    } else {
      assert n[0] in n;
      forall q: nat ensures !OccursAt(h, n, q) {
        if q >= p { assert !Matches(h, n, q, 0); }
      }
    }
  }

  lemma {:induction false} ScanGoesOn(h: string, n: string, p: nat)
    requires n != []
    ensures Scan(h, n, p).Some? ==> Scan(h, n, p).value >= p
    decreases |h| - p
  {
    if p < |h| {
      if h[p] != n[0] { ScanGoesOn(h, n, p + 1); }
      else if Matched(h, n, p, 1) < |n| { ScanGoesOn(h, n, p + Matched(h, n, p, 1)); }
    }
  }

  // A text in which strstr misses a needle that does not repeat itself from `r` on.
  lemma MissedIn(n: string, r: nat)
    requires 1 <= r < |n| && n[r] == n[0] && n[r..] != n[..|n| - r]
    ensures !IsFirst(n[..r] + n, n, Search(n[..r] + n, n))
  {
    var h := n[..r] + n;
    var i := Matched(h, n, 0, 1);
    assert OccursAt(h, n, r);
    var tail, front := n[r..], n[..|n| - r];
    var k :| 0 <= k < |tail| && tail[k] != front[k];
    assert !Matches(h, n, 0, r + k);
    assert forall j | 0 <= j <= r :: Matches(h, n, 0, j);
    ScanGoesOn(h, n, i);
  }

  /** strstr finds the first occurrence in every text exactly when the needle repeats itself as Repeats says. */
  lemma FindsFirstIffRepeats(n: string)
    requires '\0' !in n
    ensures (forall h | '\0' !in h :: IsFirst(h, n, Search(h, n))) <==> Repeats(n)
  {
    if Repeats(n) {
      forall h ensures IsFirst(h, n, Search(h, n)) {
        if n == [] { assert OccursAt(h, n, 0); } else { ScanFindsFirst(h, n, 0); }
      }
    } else {
      var r :| 1 <= r < |n| && n[r] == n[0] && n[r..] != n[..|n| - r];
      MissedIn(n, r);
      assert '\0' !in n[..r] + n;
    }
  }

  /** In particular for every needle whose first character does not recur. */
  lemma NoRecurrence(n: string)
    requires '\0' !in n && forall r | 1 <= r < |n| :: n[r] != n[0]
    ensures forall h | '\0' !in h :: IsFirst(h, n, Search(h, n))
  {
    FindsFirstIffRepeats(n);
  }
}
